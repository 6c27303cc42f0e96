/** Value types shared by the whole model. */
module Types {

  /** One unsigned 8-bit sample (numpy uint8, PIL mode 'L'). */
  newtype byte = x: int | 0 <= x < 256

  /** The values Python's `chr` accepts: range(0x110000). */
  predicate InCodeSpace(x: int) {
    0 <= x < 0x11_0000
  }

  /** A Python one-character string: any value `chr` accepts, 0 .. 0x10FFFF
      (surrogates included, unlike Dafny's own `char`). */
  newtype CodePoint = x: int | InCodeSpace(x)

  /** The exceptions of the modelled code that the caller can observe. */
  datatype Error =
    | ChrOutOfRange      // `chr(x)` raises ValueError for x outside range(0x110000)
    | NegativeImageSize  // `Image.new` raises ValueError for a negative width or height

  datatype Option<+T> = None | Some(value: T)

  datatype Result<+T> = Ok(value: T) | Err(error: Error)
}
