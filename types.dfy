/** Value types shared by every part of the model: bytes, 32-bit keys,
    the optional and fallible results of the Rust code, and the
    in-memory stand-in for the working directory. */
module Types {

  /** One byte of a file (`u8`). */
  type u8 = x: int | 0 <= x < 0x100

  /** One key (`u32`). */
  type u32 = x: int | 0 <= x < 0x1_0000_0000

  datatype Option<+T> = None | Some(value: T)

  /** The I/O failures the driver can observe. */
  datatype IoError = NotFound(path: string)

  datatype Result<+T> = Ok(value: T) | Err(error: IoError)

  /** The working directory: file name to file contents. */
  type FileSystem = map<string, seq<u8>>
}
