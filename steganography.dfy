/**
  The least-significant-bit codec of steganography/steganography.cpp. Pixel
  i of the image, in row-major order (x = i mod width, y = i div width),
  carries one bit in bit 0 of its red channel. Pixels 0..31 hold the message
  length, least significant bit first; the pixels after them hold the
  message's UTF-8 bytes, each byte least significant bit first.

  The length written is the message's length in UTF-16 code units, while the
  payload is its UTF-8 bytes; extraction reads back as many bytes as the
  header says. `HiddenPayload` states exactly what comes back.
*/
module Steganography {
  import opened Platform

  const HEADER_BITS: nat := 32

  const NOT_LOADED := "Изображение не загружено"
  const EMPTY_MESSAGE := "Сообщение пустое"
  const TOO_SMALL_TO_HIDE := "Изображение слишком маленькое для скрытия сообщения"
  const HIDDEN := "Сообщение успешно скрыто"
  const TOO_SMALL_FOR_HEADER := "Изображение слишком маленькое для извлечения сообщения"
  const NO_MESSAGE := "В изображении нет скрытого сообщения или оно повреждено"
  const TOO_SMALL_FOR_MESSAGE := "Изображение слишком маленькое для извлечения всего сообщения"
  const INVALID_CHARACTERS := "Извлеченное сообщение содержит недопустимые символы"

  /** Steganography::Result. */
  datatype Result = Result(success: bool, message: string, image: Image)

  /** A default-constructed QImage. */
  const NULL_IMAGE: Image := Bitmap(0, 0, [])

  /** A failed Result keeps its default, null image. */
  function Fail(message: string): Result {
    Result(false, message, NULL_IMAGE)
  }

  /** QImage::isNull. */
  predicate IsNull(img: Image) {
    img.width == 0 || img.height == 0
  }

  /** The text of QString("...%1...").arg(maxLength). */
  function TooLong(maxLength: int): string {
    "Сообщение слишком длинное. Максимальная длина: " + DecimalString(maxLength) + " символов"
  }

  /** QString::number for an int: decimal digits, with a leading '-' when negative. */
  function DecimalString(n: int): string
    decreases if n < 0 then 1 - n else n
  {
    if n < 0 then "-" + DecimalString(-n)
    else if n < 10 then [Digit(n)]
    else DecimalString(n / 10) + [Digit(n % 10)]
  }

  function Digit(d: nat): char
    requires d < 10
  {
    "0123456789"[d]
  }

  /** C++ `n / 8` on an int: the quotient truncated toward zero. */
  function TruncDiv8(n: int): int {
    if n >= 0 then n / 8 else -((-n) / 8)
  }

  /**
    maxMessageLength: (width * height - 32) / 8 in C++ int arithmetic. With
    room for the header it is the number of whole bytes after the header;
    without, it is the quotient truncated toward zero, so never positive.
  */
  function MaxMessageLength(img: Image): (r: int)
    ensures |img.pixels| >= HEADER_BITS ==> 8 * r <= |img.pixels| - HEADER_BITS < 8 * r + 8
    ensures |img.pixels| < HEADER_BITS ==> r <= 0 && 8 * r - 8 < |img.pixels| - HEADER_BITS <= 8 * r
  {
    TruncDiv8(img.width * img.height - 32)
  }

  // ---------------------------------------------------------------------
  // Bits of a byte

  /** `(byte >> i) & 1` for a byte. */
  function Bit(b: Byte, i: nat): bool
    requires i < 8
  {
    (b >> i) & 1 == 1
  }

  /** `1 << j` as a byte. */
  function Weight(j: nat): Byte
    requires j < 8
  {
    (1 as Byte) << j
  }

  /** The low n bits of a byte. */
  function Mask(n: nat): Byte
    requires n <= 8
  {
    if n == 8 then 0xFF else Weight(n) - 1
  }

  // MaskStep's statement for n in 1..2, 3..4, 5..6 and 7..8: the solver's
  // bit-vector reasoning stays small when each lemma covers two values of n.
  lemma MaskStep12(b: Byte, n: nat)
    requires 0 < n <= 2
    ensures (b & Mask(n - 1)) | (if Bit(b, n - 1) then Weight(n - 1) else 0) == b & Mask(n)
  {
  }

  lemma MaskStep34(b: Byte, n: nat)
    requires 2 < n <= 4
    ensures (b & Mask(n - 1)) | (if Bit(b, n - 1) then Weight(n - 1) else 0) == b & Mask(n)
  {
  }

  lemma MaskStep56(b: Byte, n: nat)
    requires 4 < n <= 6
    ensures (b & Mask(n - 1)) | (if Bit(b, n - 1) then Weight(n - 1) else 0) == b & Mask(n)
  {
  }

  lemma MaskStep78(b: Byte, n: nat)
    requires 6 < n <= 8
    ensures (b & Mask(n - 1)) | (if Bit(b, n - 1) then Weight(n - 1) else 0) == b & Mask(n)
  {
  }

  /** Adding bit n-1 to the low n-1 bits of b gives its low n bits. */
  lemma MaskStep(b: Byte, n: nat)
    requires 0 < n <= 8
    ensures (b & Mask(n - 1)) | (if Bit(b, n - 1) then Weight(n - 1) else 0) == b & Mask(n)
  {
    if n <= 2 {
      MaskStep12(b, n);
    } else if n <= 4 {
      MaskStep34(b, n);
    } else if n <= 6 {
      MaskStep56(b, n);
    } else {
      MaskStep78(b, n);
    }
  }

  // ---------------------------------------------------------------------
  // stringToBits and bitsToString on bytes

  /** stringToBits on the UTF-8 bytes: bit j of byte k at position 8k + j. */
  function BytesToBits(bytes: Bytes): (bits: seq<bool>)
    ensures |bits| == 8 * |bytes|
  {
    seq(8 * |bytes|, p requires 0 <= p < 8 * |bytes| => Bit(bytes[p / 8], p % 8))
  }

  /** The byte that bits start..start+n-1 spell, bit j at weight 2^j; the bits above n are 0. */
  function Pack(bits: seq<bool>, start: nat, n: nat): Byte
    requires n <= 8 && start + n <= |bits|
  {
    if n == 0 then 0 else Pack(bits, start, n - 1) | (if bits[start + n - 1] then Weight(n - 1) else 0)
  }

  function Min(a: int, b: int): int {
    if a <= b then a else b
  }

  /**
    bitsToString before the UTF-8 decoding: one byte per group of 8 bits, the
    final group possibly short and then zero-filled.
  */
  function BitsToBytes(bits: seq<bool>): (bytes: Bytes)
    ensures |bytes| == (|bits| + 7) / 8
  {
    seq((|bits| + 7) / 8, k requires 0 <= k < (|bits| + 7) / 8 => Pack(bits, 8 * k, Min(8, |bits| - 8 * k)))
  }

  /** One step of bitsToString's inner loop: bit j is OR-ed in only when it is set. */
  lemma PackStep(bits: seq<bool>, start: nat, j: nat)
    requires j < 8 && start + j < |bits|
    ensures Pack(bits, start, j + 1) == if bits[start + j] then Pack(bits, start, j) | Weight(j) else Pack(bits, start, j)
  {
  }

  /** n bits that agree with the low n bits of x pack to exactly those bits of x. */
  lemma {:induction false} PackBits(bits: seq<bool>, start: nat, n: nat, x: Byte)
    requires n <= 8 && start + n <= |bits|
    requires forall j | 0 <= j < n :: bits[start + j] == Bit(x, j)
    ensures Pack(bits, start, n) == x & Mask(n)
  {
    if n == 0 {
      assert Mask(0) == 0;
    } else {
      PackBits(bits, start, n - 1, x);
      MaskStep(x, n);
    }
  }

  /** Bit j of byte k sits at position 8k + j. */
  lemma BitOfBytes(bytes: Bytes, k: nat, j: nat)
    requires k < |bytes| && j < 8
    ensures BytesToBits(bytes)[8 * k + j] == Bit(bytes[k], j)
  {
    assert (8 * k + j) / 8 == k && (8 * k + j) % 8 == j;
  }

  /** Group k of the bits of a byte string packs back to byte k. */
  lemma PackGroup(bytes: Bytes, k: nat)
    requires k < |bytes|
    ensures Pack(BytesToBits(bytes), 8 * k, 8) == bytes[k]
  {
    forall j | 0 <= j < 8
      ensures BytesToBits(bytes)[8 * k + j] == Bit(bytes[k], j)
    {
      BitOfBytes(bytes, k, j);
    }
    PackBits(BytesToBits(bytes), 8 * k, 8, bytes[k]);
  }

  /** bitsToString undoes stringToBits on bytes. */
  lemma BitsRoundTrip(bytes: Bytes)
    ensures BitsToBytes(BytesToBits(bytes)) == bytes
  {
    var r := BitsToBytes(BytesToBits(bytes));
    forall k | 0 <= k < |bytes|
      ensures r[k] == bytes[k]
    {
      PackGroup(bytes, k);
    }
  }

  /** The first 8n bits of a byte string are the bits of its first n bytes. */
  lemma BitsOfPrefix(bytes: Bytes, n: nat)
    requires n <= |bytes|
    ensures BytesToBits(bytes)[..8 * n] == BytesToBits(bytes[..n])
  {
    var a := BytesToBits(bytes)[..8 * n];
    var b := BytesToBits(bytes[..n]);
    forall p | 0 <= p < 8 * n
      ensures a[p] == b[p]
    {
      assert p / 8 < n;
    }
  }

  // ---------------------------------------------------------------------
  // The 32-bit length header

  function Pow2(i: nat): (r: nat)
    ensures r > 0
  {
    if i == 0 then 1 else 2 * Pow2(i - 1)
  }

  /**
    Bits 0..k-1 of n, least significant first: bit i is `(n >> i) & 1`.
    Reading them back as a value below 2^k gives n.
  */
  function LengthBits(n: nat, k: nat): (bits: seq<bool>)
    ensures |bits| == k
    ensures n < Pow2(k) ==> BitsValue(bits) == n
  {
    if k == 0 then [] else
      var rest := LengthBits(n / 2, k - 1);
      assert ([n % 2 == 1] + rest)[1..] == rest;
      [n % 2 == 1] + rest
  }

  /** The unsigned value of bits, bit i at weight 2^i: what `value |= bit << i` builds. */
  function BitsValue(bits: seq<bool>): (v: nat)
    ensures v < Pow2(|bits|)
  {
    if |bits| == 0 then 0 else (if bits[0] then 1 else 0) + 2 * BitsValue(bits[1..])
  }

  /** The C++ int whose 32 bits are those of u. */
  function AsInt32(u: nat): (r: Int32)
    requires u < 0x1_0000_0000
    ensures u < 0x8000_0000 ==> r == u
    ensures u >= 0x8000_0000 ==> r == u - 0x1_0000_0000
  {
    if u < 0x8000_0000 then u else u - 0x1_0000_0000
  }

  /** Appending a bit adds its weight: the step of the `messageLength |= bit << i` loop. */
  lemma {:induction false} BitsValueSnoc(bits: seq<bool>, b: bool)
    ensures BitsValue(bits + [b]) == BitsValue(bits) + if b then Pow2(|bits|) else 0
  {
    if |bits| > 0 {
      assert (bits + [b])[1..] == bits[1..] + [b];
      BitsValueSnoc(bits[1..], b);
    }
  }

  lemma {:induction false} Pow2Add(a: nat, b: nat)
    ensures Pow2(a + b) == Pow2(a) * Pow2(b)
  {
    if a > 0 {
      Pow2Add(a - 1, b);
    }
  }

  lemma Pow2Of31()
    ensures Pow2(31) == 0x8000_0000 && Pow2(32) == 0x1_0000_0000
  {
    assert Pow2(4) == 16;
    Pow2Add(4, 4);
    Pow2Add(8, 8);
    Pow2Add(16, 16);
  }

  // ---------------------------------------------------------------------
  // Pixels

  /** `r = (r & 0xFE) | bit; pixel.setRed(r)`. */
  function SetRedLsb(p: Pixel, bit: bool): Pixel {
    p.(red := (p.red & 0xFE) | if bit then 1 else 0)
  }

  /** `pixel.red() & 1`. */
  predicate RedLsb(p: Pixel) {
    p.red & 1 == 1
  }

  /** Setting the red LSB stores the bit and keeps every other bit of the pixel. */
  lemma SetRedLsbFacts(p: Pixel, bit: bool)
    ensures RedLsb(SetRedLsb(p, bit)) == bit
    ensures SetRedLsb(p, bit).red & 0xFE == p.red & 0xFE
    ensures SetRedLsb(p, bit).(red := p.red) == p
  {
  }

  /** Row-major coordinates of pixel i: x = i mod w, y = i div w, and the row lies inside the image exactly when i does. */
  lemma Coordinates(i: nat, w: nat, h: nat)
    requires w > 0
    ensures 0 <= i / w && 0 <= i % w < w && (i / w) * w + i % w == i
    ensures i / w < h <==> i < w * h
  {
    var y := i / w;
    if y < h {
      MulLeft(y + 1, h, w);
    } else {
      MulLeft(h, y, w);
    }
  }

  lemma MulLeft(a: nat, b: nat, w: nat)
    requires a <= b
    ensures a * w <= b * w
  {
  }

  /**
    QImage::pixelColor(x, y) followed by setPixelColor(x, y, ...) with the red
    LSB replaced: Qt ignores coordinates outside the image.
  */
  function WriteRedLsb(pixels: seq<Pixel>, w: nat, h: nat, x: int, y: int, bit: bool): (r: seq<Pixel>)
    requires |pixels| == w * h
    ensures |r| == |pixels|
    ensures !(0 <= x < w && 0 <= y < h) ==> r == pixels
    ensures 0 <= x < w && 0 <= y < h ==>
      y * w + x < |pixels| && r[y * w + x] == SetRedLsb(pixels[y * w + x], bit) &&
      forall k | 0 <= k < |pixels| && k != y * w + x :: r[k] == pixels[k]
  {
    if 0 <= x < w && 0 <= y < h then
      MulLeft(y + 1, h, w);
      pixels[y * w + x := SetRedLsb(pixels[y * w + x], bit)]
    else
      pixels
  }

  /** The red LSBs of pixels start..start+n-1. */
  function RedBits(pixels: seq<Pixel>, start: nat, n: nat): (bits: seq<bool>)
    requires start + n <= |pixels|
    ensures |bits| == n
  {
    seq(n, i requires 0 <= i < n => RedLsb(pixels[start + i]))
  }

  /** Reading one more red LSB appends it. */
  lemma RedBitsSnoc(pixels: seq<Pixel>, start: nat, n: nat)
    requires start + n < |pixels|
    ensures RedBits(pixels, start, n + 1) == RedBits(pixels, start, n) + [RedLsb(pixels[start + n])]
  {
  }

  /**
    The pixel buffer hideMessage produces from the bits it writes (header,
    then payload): pixel k < |bits| takes bit k in its red LSB, bits past the
    end of the image are dropped, and later pixels are unchanged.
  */
  function Embed(pixels: seq<Pixel>, bits: seq<bool>): (r: seq<Pixel>)
    ensures |r| == |pixels|
  {
    seq(|pixels|, k requires 0 <= k < |pixels| => if k < |bits| then SetRedLsb(pixels[k], bits[k]) else pixels[k])
  }

  /** Writing bit b at pixel |bits| (x = |bits| mod w, y = |bits| div w) extends the embedding by b. */
  lemma EmbedStep(source: seq<Pixel>, bits: seq<bool>, b: bool, w: nat, h: nat)
    requires |source| == w * h && w > 0
    ensures WriteRedLsb(Embed(source, bits), w, h, |bits| % w, |bits| / w, b) == Embed(source, bits + [b])
  {
    Coordinates(|bits|, w, h);
  }

  /** The loop step of hideMessage: writing bit n at pixel n extends the embedding of bits[..n] by one bit. */
  lemma EmbedPrefixStep(source: seq<Pixel>, bits: seq<bool>, n: nat, w: nat, h: nat)
    requires |source| == w * h && w > 0 && n < |bits|
    ensures WriteRedLsb(Embed(source, bits[..n]), w, h, n % w, n / w, bits[n]) == Embed(source, bits[..n + 1])
  {
    assert bits[..n + 1] == bits[..n] + [bits[n]];
    EmbedStep(source, bits[..n], bits[n], w, h);
  }

  /** Every character is printable or white space (QChar::isPrint, QChar::isSpace). */
  predicate AllPrintable(text: string, env: Env) {
    forall i | 0 <= i < |text| :: env.isPrint(text[i]) || env.isSpace(text[i])
  }

  // ---------------------------------------------------------------------
  // hideMessage and extractMessage

  /**
    hideMessage. It succeeds exactly when the image is not null and the
    message is non-empty and within maxMessageLength; a success keeps the
    image's size, a failure carries the null image.
  */
  function Hide(img: Image, message: string, env: Env): (r: Result)
    ensures r.success <==> !IsNull(img) && 0 < |message| <= MaxMessageLength(img)
    ensures r.success ==> r.message == HIDDEN && r.image.width == img.width && r.image.height == img.height
    ensures !r.success ==> r.image == NULL_IMAGE
  {
    if IsNull(img) then Fail(NOT_LOADED)
    else if |message| == 0 then Fail(EMPTY_MESSAGE)
    else if |message| > MaxMessageLength(img) then Fail(TooLong(MaxMessageLength(img)))
    else if img.width * img.height < HEADER_BITS + |message| * 8 then Fail(TOO_SMALL_TO_HIDE)
    else
      var pixels := Embed(img.pixels, LengthBits(|message|, HEADER_BITS) + BytesToBits(env.toUtf8(message)));
      Result(true, HIDDEN, Bitmap(img.width, img.height, pixels))
  }

  /** The signed 32-bit length in the header of an image with at least 32 pixels. */
  function HeaderLength(img: Image): Int32
    requires |img.pixels| >= HEADER_BITS
  {
    Pow2Of31();
    AsInt32(BitsValue(RedBits(img.pixels, 0, HEADER_BITS)))
  }

  /**
    extractMessage. A success hands back the same image and a message whose
    every character is printable or white space; a failure carries the null
    image. A header length that is not positive or exceeds maxMessageLength
    is rejected.
  */
  function Extract(img: Image, env: Env): (r: Result)
    ensures r.success ==> r.image == img && AllPrintable(r.message, env)
    ensures !r.success ==> r.image == NULL_IMAGE
    ensures IsNull(img) ==> r == Fail(NOT_LOADED)
    ensures !IsNull(img) && |img.pixels| < HEADER_BITS ==> r == Fail(TOO_SMALL_FOR_HEADER)
    ensures !IsNull(img) && |img.pixels| >= HEADER_BITS && !(0 < HeaderLength(img) <= MaxMessageLength(img)) ==> r == Fail(NO_MESSAGE)
  {
    if IsNull(img) then Fail(NOT_LOADED)
    else if |img.pixels| < HEADER_BITS then Fail(TOO_SMALL_FOR_HEADER)
    else
      var messageLength := HeaderLength(img);
      var maxLength := MaxMessageLength(img);
      if messageLength <= 0 || messageLength > maxLength then Fail(NO_MESSAGE)
      else if |img.pixels| < HEADER_BITS + messageLength * 8 then Fail(TOO_SMALL_FOR_MESSAGE)
      else
        var text := env.fromUtf8(BitsToBytes(RedBits(img.pixels, HEADER_BITS, messageLength * 8)));
        if AllPrintable(text, env) then Result(true, text, img) else Fail(INVALID_CHARACTERS)
  }

  // ---------------------------------------------------------------------
  // Properties

  /**
    The size checks after the maxMessageLength checks never fire: a length
    that passes maxMessageLength always leaves room for the header and the
    bits it counts.
  */
  lemma SizeChecksAreRedundant(img: Image, len: int)
    requires 0 < len <= MaxMessageLength(img)
    ensures |img.pixels| >= HEADER_BITS + len * 8
  {
  }

  /**
    A successful hide writes the header bits of the message length into the
    red LSBs of pixels 0..31 and the payload bits into those of pixels 32..
    while they last.
  */
  lemma HideStoresBits(img: Image, message: string, env: Env)
    requires Hide(img, message, env).success
    ensures var out := Hide(img, message, env).image.pixels;
      var bits := LengthBits(|message|, HEADER_BITS) + BytesToBits(env.toUtf8(message));
      forall k | 0 <= k < |out| && k < |bits| :: RedLsb(out[k]) == bits[k]
  {
    var bits := LengthBits(|message|, HEADER_BITS) + BytesToBits(env.toUtf8(message));
    forall k | 0 <= k < |img.pixels| && k < |bits|
      ensures RedLsb(SetRedLsb(img.pixels[k], bits[k])) == bits[k]
    {
      SetRedLsbFacts(img.pixels[k], bits[k]);
    }
  }

  /**
    A successful hide changes nothing but bit 0 of the red channel of pixels
    0..32+|payload|-1: every other bit, channel and pixel is unchanged.
  */
  lemma HideKeepsOtherBits(img: Image, message: string, env: Env)
    requires Hide(img, message, env).success
    ensures var out := Hide(img, message, env).image.pixels;
      var bits := LengthBits(|message|, HEADER_BITS) + BytesToBits(env.toUtf8(message));
      |out| == |img.pixels| &&
      (forall k | 0 <= k < |out| :: out[k].(red := img.pixels[k].red) == img.pixels[k]) &&
      (forall k | 0 <= k < |out| :: out[k].red & 0xFE == img.pixels[k].red & 0xFE) &&
      (forall k | |bits| <= k < |out| :: out[k] == img.pixels[k])
  {
    var bits := LengthBits(|message|, HEADER_BITS) + BytesToBits(env.toUtf8(message));
    forall k | 0 <= k < |img.pixels| && k < |bits|
      ensures SetRedLsb(img.pixels[k], bits[k]).(red := img.pixels[k].red) == img.pixels[k]
      ensures SetRedLsb(img.pixels[k], bits[k]).red & 0xFE == img.pixels[k].red & 0xFE
    {
      SetRedLsbFacts(img.pixels[k], bits[k]);
    }
  }

  /** A successful hide stores the message length in the header. */
  lemma HiddenHeader(img: Image, message: string, env: Env)
    requires Hide(img, message, env).success
    ensures HeaderLength(Hide(img, message, env).image) == |message|
  {
    var out := Hide(img, message, env).image;
    var header := LengthBits(|message|, HEADER_BITS);
    HideStoresBits(img, message, env);
    assert RedBits(out.pixels, 0, HEADER_BITS) == header;
    Pow2Of31();
  }

  /** The header reads as a negative int exactly when bit 31, pixel 31's red LSB, is set. */
  lemma SignBitHeader(img: Image)
    requires |img.pixels| >= HEADER_BITS
    ensures HeaderLength(img) < 0 <==> RedLsb(img.pixels[HEADER_BITS - 1])
  {
    Pow2Of31();
    RedBitsSnoc(img.pixels, 0, HEADER_BITS - 1);
    BitsValueSnoc(RedBits(img.pixels, 0, HEADER_BITS - 1), RedLsb(img.pixels[HEADER_BITS - 1]));
  }

  /** A header with its sign bit set is a negative length, which extractMessage rejects as no message. */
  lemma SignBitMeansNoMessage(img: Image, env: Env)
    requires !IsNull(img) && |img.pixels| >= HEADER_BITS && RedLsb(img.pixels[HEADER_BITS - 1])
    ensures Extract(img, env) == Fail(NO_MESSAGE)
  {
    SignBitHeader(img);
  }

  /** Once the header holds a plausible length n, extraction decodes the red LSBs of the next 8n pixels. */
  lemma ExtractWithValidHeader(img: Image, env: Env, n: int)
    requires !IsNull(img) && |img.pixels| >= HEADER_BITS
    requires HeaderLength(img) == n && 0 < n <= MaxMessageLength(img)
    ensures HEADER_BITS + 8 * n <= |img.pixels|
    ensures var text := env.fromUtf8(BitsToBytes(RedBits(img.pixels, HEADER_BITS, 8 * n)));
      Extract(img, env) == if AllPrintable(text, env) then Result(true, text, img) else Fail(INVALID_CHARACTERS)
  {
    SizeChecksAreRedundant(img, n);
  }

  /** The payload pixels of a hidden image carry the bits of the first |message| UTF-8 bytes. */
  lemma HiddenBits(img: Image, message: string, env: Env)
    requires Hide(img, message, env).success
    requires |env.toUtf8(message)| >= |message|
    ensures HEADER_BITS + 8 * |message| <= |img.pixels|
    ensures RedBits(Hide(img, message, env).image.pixels, HEADER_BITS, 8 * |message|) == BytesToBits(env.toUtf8(message)[..|message|])
  {
    var utf8 := env.toUtf8(message);
    var hidden := Hide(img, message, env).image.pixels;
    HideStoresBits(img, message, env);
    SizeChecksAreRedundant(img, |message|);
    var read := RedBits(hidden, HEADER_BITS, 8 * |message|);
    forall i | 0 <= i < 8 * |message|
      ensures read[i] == BytesToBits(utf8)[i]
    {
      assert (LengthBits(|message|, HEADER_BITS) + BytesToBits(utf8))[HEADER_BITS + i] == BytesToBits(utf8)[i];
    }
    BitsOfPrefix(utf8, |message|);
  }

  /**
    Extracting from a hidden image reads back as many UTF-8 bytes as the
    message has UTF-16 code units: the first |message| bytes of its UTF-8
    encoding (which has at least that many bytes), decoded and checked.
  */
  lemma HiddenPayload(img: Image, message: string, env: Env)
    requires Hide(img, message, env).success
    requires |env.toUtf8(message)| >= |message|
    ensures var hidden := Hide(img, message, env).image;
      var text := env.fromUtf8(env.toUtf8(message)[..|message|]);
      Extract(hidden, env) == if AllPrintable(text, env) then Result(true, text, hidden) else Fail(INVALID_CHARACTERS)
  {
    var hidden := Hide(img, message, env).image;
    HiddenHeader(img, message, env);
    HiddenBits(img, message, env);
    BitsRoundTrip(env.toUtf8(message)[..|message|]);
    ExtractWithValidHeader(hidden, env, |message|);
  }

  /**
    The round trip: when UTF-8 decoding undoes encoding, the message has one
    UTF-8 byte per code unit and every character is printable or white
    space, extracting from the hidden image gives the message back.
  */
  lemma HideExtractRoundTrip(img: Image, message: string, env: Env)
    requires Utf8RoundTrips(env)
    requires Hide(img, message, env).success
    requires |env.toUtf8(message)| == |message|
    requires AllPrintable(message, env)
    ensures Extract(Hide(img, message, env).image, env) == Result(true, message, Hide(img, message, env).image)
  {
    HiddenPayload(img, message, env);
    assert env.toUtf8(message)[..|message|] == env.toUtf8(message);
  }

  /** The scan of extractMessage walks UTF-16 units, so a message outside the Basic Multilingual Plane never comes back. */
  lemma ExtractRejectsSupplementary(img: Image, env: Env)
    requires SupplementaryNeverPrintable(env)
    ensures var r := Extract(img, env);
      r.success ==> forall i | 0 <= i < |r.message| :: r.message[i] as int < 0x10000
  {
  }

  // ---------------------------------------------------------------------
  // The loops of the source

  /** Steganography::stringToBits. */
  method StringToBits(message: string, env: Env) returns (bits: seq<bool>)
    ensures bits == BytesToBits(env.toUtf8(message))
  {
    var utf8Data := env.toUtf8(message);
    bits := [];
    for k := 0 to |utf8Data|
      invariant |bits| == 8 * k
      invariant forall p | 0 <= p < |bits| :: bits[p] == Bit(utf8Data[p / 8], p % 8)
    {
      for i := 0 to 8
        invariant |bits| == 8 * k + i
        invariant forall p | 0 <= p < |bits| :: bits[p] == Bit(utf8Data[p / 8], p % 8)
      {
        bits := bits + [Bit(utf8Data[k], i)];
      }
    }
  }

  /** Steganography::bitsToString. */
  method BitsToString(bits: seq<bool>, env: Env) returns (s: string)
    ensures s == env.fromUtf8(BitsToBytes(bits))
  {
    var bytes: Bytes := [];
    var i := 0;
    while i < |bits|
      invariant i == 8 * |bytes| && |bytes| <= (|bits| + 7) / 8
      invariant i < |bits| ==> |bytes| < (|bits| + 7) / 8
      invariant i >= |bits| ==> |bytes| == (|bits| + 7) / 8
      invariant forall k | 0 <= k < |bytes| :: bytes[k] == Pack(bits, 8 * k, Min(8, |bits| - 8 * k))
      decreases |bits| - i
    {
      var byte: Byte := 0;
      var j := 0;
      while j < 8 && i + j < |bits|
        invariant 0 <= j <= 8 && i + j <= |bits|
        invariant byte == Pack(bits, i, j)
      {
        PackStep(bits, i, j);
        if bits[i + j] {
          byte := byte | Weight(j);
        }
        j := j + 1;
      }
      assert j == Min(8, |bits| - i);
      bytes := bytes + [byte];
      i := i + 8;
    }
    assert bytes == BitsToBytes(bits);
    s := env.fromUtf8(bytes);
  }

  /** Steganography::hideMessage. */
  method HideMessage(sourceImage: Image, message: string, env: Env) returns (result: Result)
    ensures result == Hide(sourceImage, message, env)
  {
    if IsNull(sourceImage) {
      return Fail(NOT_LOADED);
    }
    if |message| == 0 {
      return Fail(EMPTY_MESSAGE);
    }
    var maxLength := MaxMessageLength(sourceImage);
    if |message| > maxLength {
      return Fail(TooLong(maxLength));
    }
    var requiredPixels := HEADER_BITS + |message| * 8;
    if sourceImage.width * sourceImage.height < requiredPixels {
      return Fail(TOO_SMALL_TO_HIDE);
    }
    var messageBits := StringToBits(message, env);
    var w, h := sourceImage.width, sourceImage.height;
    var source := sourceImage.pixels;
    var modified := source;
    var messageLength := |message|;
    var header := LengthBits(messageLength, HEADER_BITS);
    ghost var bits := header + messageBits;
    assert modified == Embed(source, bits[..0]);
    for i := 0 to HEADER_BITS
      invariant modified == Embed(source, bits[..i])
    {
      var x, y := i % w, i / w;
      EmbedPrefixStep(source, bits, i, w, h);
      modified := WriteRedLsb(modified, w, h, x, y, header[i]);
    }
    for i := 0 to |messageBits|
      invariant modified == Embed(source, bits[..HEADER_BITS + i])
    {
      var pixelIndex := i + HEADER_BITS;
      var x, y := pixelIndex % w, pixelIndex / w;
      EmbedPrefixStep(source, bits, pixelIndex, w, h);
      modified := WriteRedLsb(modified, w, h, x, y, messageBits[i]);
    }
    assert bits[..|bits|] == bits;
    return Result(true, HIDDEN, Bitmap(w, h, modified));
  }

  /**
    The character check of extractMessage: a scan that stops at the first
    character that is neither printable nor white space.
  */
  method ScanPrintable(text: string, env: Env) returns (validMessage: bool)
    ensures validMessage <==> AllPrintable(text, env)
  {
    validMessage := true;
    var n := 0;
    while n < |text|
      invariant 0 <= n <= |text|
      invariant forall i | 0 <= i < n :: env.isPrint(text[i]) || env.isSpace(text[i])
    {
      var ch := text[n];
      if !env.isPrint(ch) && !env.isSpace(ch) {
        validMessage := false;
        break;
      }
      n := n + 1;
    }
  }

  /** Steganography::extractMessage. */
  method ExtractMessage(image: Image, env: Env) returns (result: Result)
    ensures result == Extract(image, env)
  {
    if IsNull(image) {
      return Fail(NOT_LOADED);
    }
    var w, h := image.width, image.height;
    var pixels := image.pixels;
    // The header bits sit at distinct positions, so `|=` adds their weights.
    var header: nat := 0;
    for i := 0 to HEADER_BITS
      invariant i <= |pixels|
      invariant header == BitsValue(RedBits(pixels, 0, i))
    {
      var x, y := i % w, i / w;
      Coordinates(i, w, h);
      if x >= w || y >= h {
        return Fail(TOO_SMALL_FOR_HEADER);
      }
      var bit := RedLsb(pixels[y * w + x]);
      RedBitsSnoc(pixels, 0, i);
      BitsValueSnoc(RedBits(pixels, 0, i), bit);
      header := header + if bit then Pow2(i) else 0;
    }
    Pow2Of31();
    var messageLength := AsInt32(header);
    var maxLength := MaxMessageLength(image);
    if messageLength <= 0 || messageLength > maxLength {
      return Fail(NO_MESSAGE);
    }
    var messageBits := [];
    for i := 0 to messageLength * 8
      invariant HEADER_BITS + i <= |pixels|
      invariant messageBits == RedBits(pixels, HEADER_BITS, i)
    {
      var pixelIndex := i + HEADER_BITS;
      var x, y := pixelIndex % w, pixelIndex / w;
      Coordinates(pixelIndex, w, h);
      if x >= w || y >= h {
        return Fail(TOO_SMALL_FOR_MESSAGE);
      }
      RedBitsSnoc(pixels, HEADER_BITS, i);
      messageBits := messageBits + [RedLsb(pixels[y * w + x])];
    }
    var extractedMessage := BitsToString(messageBits, env);
    var validMessage := ScanPrintable(extractedMessage, env);
    if !validMessage {
      return Fail(INVALID_CHARACTERS);
    }
    return Result(true, extractedMessage, image);
  }
}
