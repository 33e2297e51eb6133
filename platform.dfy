/**
  The facilities of Qt and of the rest of the repository that the core calls
  but does not implement itself: hashing, text encodings, base64, character
  classes, image decoding and encoding, and the chord-method solver.

  Each facility is a field of `Env`, a record of function values, so the model
  states what it needs from a facility (a law, as a predicate) without
  inventing how the facility works.
*/
module Platform {

  type Byte = bv8
  type Bytes = seq<Byte>

  /** A SHA-256 digest (FIPS 180-4): always 32 bytes. */
  type Digest32 = s: Bytes | |s| == 32 witness seq(32, _ => 0)

  /** The C++ `int` of the source. */
  type Int32 = x: int | -0x8000_0000 <= x < 0x8000_0000

  datatype Option<T> = None | Some(value: T)

  /** One ARGB32 pixel; only the red channel is ever rewritten. */
  datatype Pixel = Pixel(alpha: Byte, red: Byte, green: Byte, blue: Byte)

  /** Pixels in row-major order: pixel (x, y) is `pixels[y * width + x]`. */
  datatype Bitmap = Bitmap(width: nat, height: nat, pixels: seq<Pixel>)

  /**
    A QImage: its pixel buffer holds exactly width * height pixels, and Qt
    refuses images whose buffer would not fit in an `int`.
  */
  type Image = b: Bitmap
    | |b.pixels| == b.width * b.height && b.width * b.height < 0x8000_0000
    witness Bitmap(0, 0, [])

  /** What `ChordMethod::solveEquation` hands back (chordmethod.h). */
  datatype SolveResult = SolveResult(
    success: bool, root: real, iterations: Int32, precision: real, errorMessage: string)

  datatype Env = Env(
    /** QCryptographicHash::hash(key, Sha256). */
    sha256: Bytes -> Digest32,
    /** SHA384::hashString: lower-case hex of SHA-384 over the UTF-8 bytes. */
    sha384Hex: string -> string,
    /** QString::toUtf8 and QString::fromUtf8. */
    toUtf8: string -> Bytes,
    fromUtf8: Bytes -> string,
    /** QString(bytes.toBase64()) and QByteArray::fromBase64(text.toUtf8()) (RFC 4648, section 4). */
    toBase64: Bytes -> string,
    fromBase64: string -> Bytes,
    /**
      QChar::isPrint and QChar::isSpace, applied to every UTF-16 unit of the
      character: true when each unit passes the test.
    */
    isPrint: char -> bool,
    isSpace: char -> bool,
    /** QImage::loadFromData (None when it fails) and saving as PNG into a buffer. */
    loadImage: Bytes -> Option<Image>,
    savePng: Image -> Option<Bytes>,
    /** qFuzzyCompare on doubles. */
    fuzzyCompare: (real, real) -> bool,
    /** ChordMethod::solveEquation(equation, a, b, epsilon, maxIterations). */
    solveEquation: (string, real, real, real, Int32) -> SolveResult
  )

  /** Base64 decoding undoes base64 encoding, and the empty byte string encodes as the empty text (so no other does). */
  ghost predicate Base64RoundTrips(env: Env) {
    env.toBase64([]) == "" && forall b :: env.fromBase64(env.toBase64(b)) == b
  }

  /** Decoding the UTF-8 encoding of a string gives the string back. */
  ghost predicate Utf8RoundTrips(env: Env) {
    forall t :: env.fromUtf8(env.toUtf8(t)) == t
  }

  /**
    A character outside the Basic Multilingual Plane is two UTF-16 surrogate
    halves, and QChar classes a lone surrogate as neither printable nor space.
  */
  ghost predicate SupplementaryNeverPrintable(env: Env) {
    forall c: char :: c as int >= 0x10000 ==> !env.isPrint(c) && !env.isSpace(c)
  }
}
