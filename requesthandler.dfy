/**
  handlers/requesthandler.cpp: the dispatcher and the per-operation handlers.
  Every handler reads its fields from the request data, validates them in a
  fixed order, and only then calls its engine. A validation error is an
  ERROR response with a message and no data; an engine error from hiding,
  extracting or solving also carries data "status" = 1.
*/
module Handlers {
  import opened Platform
  import opened Json
  import opened Protocol
  import opened Database
  import opened Auth
  import Crypto
  import Steganography

  const UNKNOWN_REQUEST := "Неизвестный тип запроса"
  const EMPTY_TEXT_OR_KEYS := "Текст и ключи не могут быть пустыми"
  const EMPTY_CIPHERTEXT_OR_KEYS := "Зашифрованный текст и ключи не могут быть пустыми"
  const NOT_BASE64 := "Зашифрованный текст должен быть в формате Base64"
  const INVALID_DECRYPTION := "Результат дешифрования содержит недопустимые символы. Проверьте правильность ключей"
  const EMPTY_EQUATION := "Уравнение не может быть пустым"
  const EQUAL_BOUNDS := "Значения a и b не могут быть равны"
  const NONPOSITIVE_EPSILON := "Точность (epsilon) должна быть положительной"
  const NONPOSITIVE_ITERATIONS := "Максимальное число итераций должно быть положительным"
  const EMPTY_IMAGE_OR_MESSAGE := "Изображение и сообщение не могут быть пустыми"
  const MESSAGE_TOO_LONG := "Сообщение слишком длинное. Максимальная длина: 10000 символов"
  const INVALID_MESSAGE := "Сообщение содержит недопустимые символы"
  const LOAD_FAILED := "Не удалось загрузить изображение"
  const IMAGE_TOO_SMALL := "Изображение слишком маленькое"
  const SAVE_FAILED := "Не удалось сохранить изображение"
  const EMPTY_IMAGE := "Изображение не может быть пустым"

  /** The longest message the hide handler accepts, in UTF-16 code units. */
  const MAX_HIDE_LENGTH := 10000

  /** A string field of the request data ("" when absent or not a string). */
  function Field(request: Request, key: string): string {
    ToString(request.Data(key))
  }

  /** QByteArray::fromBase64 of a string field. */
  function Base64Field(request: Request, key: string, env: Env): Bytes {
    env.fromBase64(Field(request, key))
  }

  // ---------------------------------------------------------------------
  // Triple DES

  /**
    handleTripleDESEncrypt: ERROR unless the text and all three decoded keys
    are non-empty; then SUCCESS carrying the ciphertext of the text under the
    normalised keys.
  */
  function EncryptReply(request: Request, env: Env): (r: Response)
    ensures var k1, k2, k3 := Base64Field(request, "key1", env), Base64Field(request, "key2", env), Base64Field(request, "key3", env);
      (r.Status() == SUCCESS <==> Field(request, "text") != "" && k1 != [] && k2 != [] && k3 != []) &&
      (r.Status() == SUCCESS ==>
        r.Data("encrypted_text") ==
          Str(Crypto.EncryptText(env, Crypto.NormalizeKey(k1), Crypto.NormalizeKey(k2), Crypto.NormalizeKey(k3), Field(request, "text")))) &&
      (r.Status() != SUCCESS ==> r == ErrorResponse(EMPTY_TEXT_OR_KEYS))
  {
    var text := Field(request, "text");
    var key1 := Base64Field(request, "key1", env);
    var key2 := Base64Field(request, "key2", env);
    var key3 := Base64Field(request, "key3", env);
    if text == "" || key1 == [] || key2 == [] || key3 == [] then
      ErrorResponse(EMPTY_TEXT_OR_KEYS)
    else
      var encryptedText := Crypto.EncryptText(env, Crypto.NormalizeKey(key1), Crypto.NormalizeKey(key2), Crypto.NormalizeKey(key3), text);
      Response.WithStatus(SUCCESS).SetData("encrypted_text", Str(encryptedText))
  }

  /**
    The decrypt handler's rejection test: an ASCII character other than NUL
    that is neither printable, white space, '\n', '\r' nor '\t'. Characters
    outside ASCII are always accepted.
  */
  predicate RejectedAfterDecryption(ch: char, env: Env) {
    !env.isPrint(ch) && !env.isSpace(ch) && ch != '\n' && ch != '\r' && ch != '\t' &&
    (ch as int) < 128 && (ch as int) != 0
  }

  predicate AcceptableDecryption(text: string, env: Env) {
    forall i | 0 <= i < |text| :: !RejectedAfterDecryption(text[i], env)
  }

  /**
    The character scan of handleTripleDESDecrypt: it stops at the first
    rejected character.
  */
  method ScanDecryption(decryptedText: string, env: Env) returns (validText: bool)
    ensures validText <==> AcceptableDecryption(decryptedText, env)
  {
    validText := true;
    var n := 0;
    while n < |decryptedText|
      invariant 0 <= n <= |decryptedText|
      invariant forall i | 0 <= i < n :: !RejectedAfterDecryption(decryptedText[i], env)
      invariant validText
    {
      var ch := decryptedText[n];
      if !env.isPrint(ch) && !env.isSpace(ch) && ch != '\n' && ch != '\r' && ch != '\t' &&
        (ch as int) < 128 && (ch as int) != 0
      {
        validText := false;
        break;
      }
      n := n + 1;
    }
  }

  /**
    handleTripleDESDecrypt. In order: empty ciphertext or key, ciphertext
    that decodes to no bytes, and a decryption holding a rejected character
    are ERRORs; otherwise SUCCESS carrying the decryption.
  */
  function DecryptReply(request: Request, env: Env): (r: Response)
    ensures var c, k1, k2, k3 := Field(request, "encrypted_text"), Base64Field(request, "key1", env), Base64Field(request, "key2", env), Base64Field(request, "key3", env);
      var plain := Crypto.DecryptText(env, Crypto.NormalizeKey(k1), Crypto.NormalizeKey(k2), Crypto.NormalizeKey(k3), c);
      (r.Status() == SUCCESS <==>
        c != "" && k1 != [] && k2 != [] && k3 != [] && env.fromBase64(c) != [] && AcceptableDecryption(plain, env)) &&
      (r.Status() == SUCCESS ==> r.Data("decrypted_text") == Str(plain) && r.ErrorMessage() == "") &&
      (r.Status() != SUCCESS ==>
        r == ErrorResponse(
          if c == "" || k1 == [] || k2 == [] || k3 == [] then EMPTY_CIPHERTEXT_OR_KEYS
          else if env.fromBase64(c) == [] then NOT_BASE64
          else INVALID_DECRYPTION))
  {
    var encryptedText := Field(request, "encrypted_text");
    var key1 := Base64Field(request, "key1", env);
    var key2 := Base64Field(request, "key2", env);
    var key3 := Base64Field(request, "key3", env);
    if encryptedText == "" || key1 == [] || key2 == [] || key3 == [] then
      ErrorResponse(EMPTY_CIPHERTEXT_OR_KEYS)
    else if env.fromBase64(encryptedText) == [] then
      ErrorResponse(NOT_BASE64)
    else
      var decryptedText := Crypto.DecryptText(env, Crypto.NormalizeKey(key1), Crypto.NormalizeKey(key2), Crypto.NormalizeKey(key3), encryptedText);
      if !AcceptableDecryption(decryptedText, env) then
        ErrorResponse(INVALID_DECRYPTION)
      else
        Response.WithStatus(SUCCESS).SetData("decrypted_text", Str(decryptedText))
  }

  /**
    Wrong keys are not reported: when the decrypted bytes lack the "UTF8:"
    marker the decryption is the empty string, which passes the character
    test, so the reply is SUCCESS with an empty "decrypted_text".
  */
  lemma WrongKeysDecryptToEmptySuccess(request: Request, env: Env)
    requires var c, k1, k2, k3 := Field(request, "encrypted_text"), Base64Field(request, "key1", env), Base64Field(request, "key2", env), Base64Field(request, "key3", env);
      c != "" && k1 != [] && k2 != [] && k3 != [] && env.fromBase64(c) != [] &&
      !Crypto.HasMarker(Crypto.DecryptBytes(env, Crypto.NormalizeKey(k1), Crypto.NormalizeKey(k2), Crypto.NormalizeKey(k3), env.fromBase64(c)))
    ensures DecryptReply(request, env) == Response(SUCCESS, map["decrypted_text" := Str("")], "")
  {
  }

  /**
    Encrypting a text and decrypting the reply's ciphertext under the same
    key fields gives the text back, when base64 and UTF-8 round-trip, the
    UTF-8 bytes do not end in a zero byte and the text has no rejected
    character.
  */
  lemma EncryptThenDecrypt(encrypt: Request, decrypt: Request, env: Env)
    requires Base64RoundTrips(env) && Utf8RoundTrips(env)
    requires EncryptReply(encrypt, env).Status() == SUCCESS
    requires decrypt.Data("key1") == encrypt.Data("key1") && decrypt.Data("key2") == encrypt.Data("key2") &&
      decrypt.Data("key3") == encrypt.Data("key3")
    requires decrypt.Data("encrypted_text") == EncryptReply(encrypt, env).Data("encrypted_text")
    requires var u := env.toUtf8(Field(encrypt, "text")); u == [] || u[|u| - 1] != 0
    requires AcceptableDecryption(Field(encrypt, "text"), env)
    ensures DecryptReply(decrypt, env).Status() == SUCCESS
    ensures DecryptReply(decrypt, env).Data("decrypted_text") == Str(Field(encrypt, "text"))
  {
    var text := Field(encrypt, "text");
    var k1 := Crypto.NormalizeKey(Base64Field(encrypt, "key1", env));
    var k2 := Crypto.NormalizeKey(Base64Field(encrypt, "key2", env));
    var k3 := Crypto.NormalizeKey(Base64Field(encrypt, "key3", env));
    var c := Crypto.EncryptText(env, k1, k2, k3, text);
    assert Field(decrypt, "encrypted_text") == c;
    Crypto.TextRoundTrip(env, k1, k2, k3, text);
    assert Crypto.DecryptText(env, k1, k2, k3, c) == text != "";
    assert env.fromBase64(c) != [];
    assert c != "" by {
      assert env.fromBase64(env.toBase64([])) == [];
    }
    assert Base64Field(decrypt, "key1", env) == Base64Field(encrypt, "key1", env);
    assert Base64Field(decrypt, "key2", env) == Base64Field(encrypt, "key2", env);
    assert Base64Field(decrypt, "key3", env) == Base64Field(encrypt, "key3", env);
    assert AcceptableDecryption(Crypto.DecryptText(env, k1, k2, k3, c), env);
    DecryptSucceeds(decrypt, env);
  }

  /** The decrypt handler's success case, stated on its inputs. */
  lemma DecryptSucceeds(request: Request, env: Env)
    requires var c, k1, k2, k3 := Field(request, "encrypted_text"), Base64Field(request, "key1", env), Base64Field(request, "key2", env), Base64Field(request, "key3", env);
      c != "" && k1 != [] && k2 != [] && k3 != [] && env.fromBase64(c) != [] &&
      AcceptableDecryption(Crypto.DecryptText(env, Crypto.NormalizeKey(k1), Crypto.NormalizeKey(k2), Crypto.NormalizeKey(k3), c), env)
    ensures var c, k1, k2, k3 := Field(request, "encrypted_text"), Base64Field(request, "key1", env), Base64Field(request, "key2", env), Base64Field(request, "key3", env);
      DecryptReply(request, env) ==
        Response(SUCCESS, map["decrypted_text" := Str(Crypto.DecryptText(env, Crypto.NormalizeKey(k1), Crypto.NormalizeKey(k2), Crypto.NormalizeKey(k3), c))], "")
  {
  }

  // ---------------------------------------------------------------------
  // Chord method

  /** The solver's inputs as the handler reads them. */
  datatype SolveInput = SolveInput(equation: string, a: real, b: real, epsilon: real, maxIterations: Int32)

  /** a and b default to 0, epsilon to 0.0001 and max_iterations to 100. */
  function SolveInputOf(request: Request): (i: SolveInput)
    ensures request.Data("epsilon") == Undefined ==> i.epsilon == 0.0001
    ensures request.Data("max_iterations") == Undefined ==> i.maxIterations == 100
  {
    SolveInput(
      Field(request, "equation"),
      ToDouble(request.Data("a"), 0.0),
      ToDouble(request.Data("b"), 0.0),
      ToDouble(request.Data("epsilon"), 0.0001),
      ToInt(request.Data("max_iterations"), 100))
  }

  /**
    handleChordMethodSolve. The checks come in this order, each an ERROR
    before the solver runs: empty equation, a and b fuzzily equal, epsilon
    not positive, max_iterations not positive. The solver's answer is then
    passed on, with data "status" mirroring the outcome.
  */
  function SolveReply(request: Request, env: Env): (r: Response)
    ensures var i := SolveInputOf(request);
      var valid := i.equation != "" && !env.fuzzyCompare(i.a, i.b) && i.epsilon > 0.0 && i.maxIterations > 0;
      var s := env.solveEquation(i.equation, i.a, i.b, i.epsilon, i.maxIterations);
      (!valid ==>
        r == ErrorResponse(
          if i.equation == "" then EMPTY_EQUATION
          else if env.fuzzyCompare(i.a, i.b) then EQUAL_BOUNDS
          else if i.epsilon <= 0.0 then NONPOSITIVE_EPSILON
          else NONPOSITIVE_ITERATIONS)) &&
      (valid ==> r.Data("status") == FromInt(r.Status())) &&
      (valid && s.success ==>
        r.Status() == SUCCESS &&
        r.Data("root") == Number(s.root) && r.Data("iterations") == FromInt(s.iterations) && r.Data("precision") == Number(s.precision)) &&
      (valid && !s.success ==> r.Status() == ERROR && r.ErrorMessage() == s.errorMessage)
  {
    var i := SolveInputOf(request);
    if i.equation == "" then
      ErrorResponse(EMPTY_EQUATION)
    else if env.fuzzyCompare(i.a, i.b) then
      ErrorResponse(EQUAL_BOUNDS)
    else if i.epsilon <= 0.0 then
      ErrorResponse(NONPOSITIVE_EPSILON)
    else if i.maxIterations <= 0 then
      ErrorResponse(NONPOSITIVE_ITERATIONS)
    else
      var result := env.solveEquation(i.equation, i.a, i.b, i.epsilon, i.maxIterations);
      if result.success then
        Response.WithStatus(SUCCESS)
          .SetData("root", Number(result.root))
          .SetData("iterations", FromInt(result.iterations))
          .SetData("precision", Number(result.precision))
          .SetData("status", FromInt(SUCCESS))
      else
        ErrorResponse(result.errorMessage).SetData("status", FromInt(ERROR))
  }

  // ---------------------------------------------------------------------
  // Steganography

  /** The hide handler's character test: printable, white space, '\n', '\r' or '\t'. */
  predicate AllowedInMessage(ch: char, env: Env) {
    env.isPrint(ch) || env.isSpace(ch) || ch == '\n' || ch == '\r' || ch == '\t'
  }

  predicate AcceptableMessage(message: string, env: Env) {
    forall i | 0 <= i < |message| :: AllowedInMessage(message[i], env)
  }

  /** The size check of both image handlers. */
  predicate TooSmall(img: Image) {
    img.width < 10 || img.height < 10 || img.width * img.height < 100
  }

  /** Everything the hide handler checks before hiding: the image it loaded, or None. */
  function HideInput(request: Request, env: Env): Option<Image> {
    var imageData := Base64Field(request, "image", env);
    var message := Field(request, "message");
    if imageData == [] || message == "" || |message| > MAX_HIDE_LENGTH || !AcceptableMessage(message, env) then None
    else match env.loadImage(imageData)
      case None => None
      case Some(img) => if TooSmall(img) then None else Some(img)
  }

  /** A successful hide as a response: the PNG as base64, the engine's message and status 0. */
  function HiddenImageReply(png: Bytes, message: string, env: Env): Response {
    Response.WithStatus(SUCCESS)
      .SetData("image", Str(env.toBase64(png)))
      .SetData("message", Str(message))
      .SetData("status", FromInt(SUCCESS))
  }

  /**
    handleSteganographyHide. A request that fails a check (empty image or
    message, message over 10000 code units or with a disallowed character,
    undecodable image, image under 10x10 or 100 pixels) is an ERROR with no
    data and the engine is not run. Otherwise the engine's outcome decides.
  */
  function HideReply(request: Request, env: Env): (r: Response)
    ensures HideInput(request, env).None? ==> r.Status() == ERROR && r.data == map[]
    ensures Base64Field(request, "image", env) == [] || Field(request, "message") == "" ==> r == ErrorResponse(EMPTY_IMAGE_OR_MESSAGE)
    ensures Base64Field(request, "image", env) != [] && Field(request, "message") != "" && |Field(request, "message")| > MAX_HIDE_LENGTH ==>
      r == ErrorResponse(MESSAGE_TOO_LONG)
    ensures Base64Field(request, "image", env) != [] && Field(request, "message") != "" &&
            |Field(request, "message")| <= MAX_HIDE_LENGTH && !AcceptableMessage(Field(request, "message"), env) ==>
      r == ErrorResponse(INVALID_MESSAGE)
    ensures HideInput(request, env).Some? ==>
      var result := Steganography.Hide(HideInput(request, env).value, Field(request, "message"), env);
      (result.success && env.savePng(result.image).Some? ==>
        r == HiddenImageReply(env.savePng(result.image).value, result.message, env)) &&
      (result.success && env.savePng(result.image).None? ==> r == ErrorResponse(SAVE_FAILED)) &&
      (!result.success ==> r.Status() == ERROR && r.ErrorMessage() == result.message && r.Data("status") == FromInt(ERROR))
  {
    var imageData := Base64Field(request, "image", env);
    var message := Field(request, "message");
    if imageData == [] || message == "" then
      ErrorResponse(EMPTY_IMAGE_OR_MESSAGE)
    else if |message| > MAX_HIDE_LENGTH then
      ErrorResponse(MESSAGE_TOO_LONG)
    else if !AcceptableMessage(message, env) then
      ErrorResponse(INVALID_MESSAGE)
    else match env.loadImage(imageData)
      case None => ErrorResponse(LOAD_FAILED)
      case Some(image) =>
        if TooSmall(image) then
          ErrorResponse(IMAGE_TOO_SMALL)
        else
          var result := Steganography.Hide(image, message, env);
          if result.success then
            match env.savePng(result.image)
            case None => ErrorResponse(SAVE_FAILED)
            case Some(png) => HiddenImageReply(png, result.message, env)
          else
            ErrorResponse(result.message).SetData("status", FromInt(ERROR))
  }

  /** Everything the extract handler checks before extracting: the image it loaded, or None. */
  function ExtractInput(request: Request, env: Env): Option<Image> {
    var imageData := Base64Field(request, "image", env);
    if imageData == [] then None
    else match env.loadImage(imageData)
      case None => None
      case Some(img) => if TooSmall(img) then None else Some(img)
  }

  /**
    handleSteganographyExtract: an empty, undecodable or too small image is
    an ERROR with no data and the engine is not run; otherwise SUCCESS with
    the extracted message, or ERROR with the engine's message, and data
    "status" mirroring the outcome.
  */
  function ExtractReply(request: Request, env: Env): (r: Response)
    ensures ExtractInput(request, env).None? ==>
      r == ErrorResponse(
        if Base64Field(request, "image", env) == [] then EMPTY_IMAGE
        else if env.loadImage(Base64Field(request, "image", env)).None? then LOAD_FAILED
        else IMAGE_TOO_SMALL)
    ensures ExtractInput(request, env).Some? ==>
      var result := Steganography.Extract(ExtractInput(request, env).value, env);
      r.Data("status") == FromInt(r.Status()) &&
      (result.success ==> r.Status() == SUCCESS && r.Data("message") == Str(result.message)) &&
      (!result.success ==> r.Status() == ERROR && r.ErrorMessage() == result.message)
  {
    var imageData := Base64Field(request, "image", env);
    if imageData == [] then
      ErrorResponse(EMPTY_IMAGE)
    else match env.loadImage(imageData)
      case None => ErrorResponse(LOAD_FAILED)
      case Some(image) =>
        if TooSmall(image) then
          ErrorResponse(IMAGE_TOO_SMALL)
        else
          var result := Steganography.Extract(image, env);
          if result.success then
            Response.WithStatus(SUCCESS).SetData("message", Str(result.message)).SetData("status", FromInt(SUCCESS))
          else
            ErrorResponse(result.message).SetData("status", FromInt(ERROR))
  }

  /** Saving as PNG gives non-empty bytes, and loading them back gives the same image. */
  ghost predicate PngRoundTrips(env: Env) {
    forall img: Image :: env.savePng(img).Some? ==>
      env.savePng(img).value != [] && env.loadImage(env.savePng(img).value) == Some(img)
  }

  /**
    The character loop of the hide handler walks UTF-16 units, so a message
    holding a character outside the Basic Multilingual Plane is refused.
  */
  lemma HideRejectsSupplementary(request: Request, env: Env, i: int)
    requires SupplementaryNeverPrintable(env)
    requires Base64Field(request, "image", env) != [] && |Field(request, "message")| <= MAX_HIDE_LENGTH
    requires 0 <= i < |Field(request, "message")| && Field(request, "message")[i] as int >= 0x10000
    ensures HideReply(request, env) == ErrorResponse(INVALID_MESSAGE)
  {
    assert !AllowedInMessage(Field(request, "message")[i], env);
  }

  /** A hide reply is SUCCESS only when every check passed, the engine hid the message and saving worked. */
  lemma HideSuccessCase(request: Request, env: Env)
    requires HideReply(request, env).Status() == SUCCESS
    ensures HideInput(request, env).Some?
    ensures var result := Steganography.Hide(HideInput(request, env).value, Field(request, "message"), env);
      result.success && env.savePng(result.image).Some? &&
      HideReply(request, env).Data("image") == Str(env.toBase64(env.savePng(result.image).value))
  {
  }

  /**
    A hide reply's image, sent back in an extract request, gives the message
    back, for a message with one UTF-8 byte per code unit whose every
    character is printable or white space.
  */
  lemma HideThenExtract(hideRequest: Request, extractRequest: Request, env: Env)
    requires Base64RoundTrips(env) && Utf8RoundTrips(env) && PngRoundTrips(env)
    requires HideReply(hideRequest, env).Status() == SUCCESS
    requires extractRequest.Data("image") == HideReply(hideRequest, env).Data("image")
    requires var message := Field(hideRequest, "message"); |env.toUtf8(message)| == |message|
    requires Steganography.AllPrintable(Field(hideRequest, "message"), env)
    ensures ExtractReply(extractRequest, env).Status() == SUCCESS
    ensures ExtractReply(extractRequest, env).Data("message") == Str(Field(hideRequest, "message"))
  {
    HideSuccessCase(hideRequest, env);
    var message := Field(hideRequest, "message");
    var img := HideInput(hideRequest, env).value;
    var result := Steganography.Hide(img, message, env);
    var png := env.savePng(result.image).value;
    assert Field(extractRequest, "image") == env.toBase64(png);
    assert Base64Field(extractRequest, "image", env) == png;
    assert png != [] && env.loadImage(png) == Some(result.image);
    assert !TooSmall(img);
    assert ExtractInput(extractRequest, env) == Some(result.image);
    Steganography.HideExtractRoundTrip(img, message, env);
  }

  // ---------------------------------------------------------------------
  // Dispatch

  /**
    handleRequest: the reply and the store after it. Only registration
    touches the store, and a type outside the seven request types is an
    ERROR "unknown request type".
  */
  function Dispatch(request: Request, s: Store, env: Env): (r: (Response, Store))
    ensures request.Type() != AUTH_REGISTER ==> r.1 == s
    ensures !(AUTH_LOGIN <= request.Type() <= STEGANOGRAPHY_EXTRACT) ==> r.0 == ErrorResponse(UNKNOWN_REQUEST)
    ensures request.Type() == AUTH_LOGIN ==> r.0 == LoginReply(request, s, env)
    ensures request.Type() == AUTH_REGISTER ==> r == RegisterReply(request, s, env)
    ensures request.Type() == TRIPLE_DES_ENCRYPT ==> r.0 == EncryptReply(request, env)
    ensures request.Type() == TRIPLE_DES_DECRYPT ==> r.0 == DecryptReply(request, env)
    ensures request.Type() == CHORD_METHOD_SOLVE ==> r.0 == SolveReply(request, env)
    ensures request.Type() == STEGANOGRAPHY_HIDE ==> r.0 == HideReply(request, env)
    ensures request.Type() == STEGANOGRAPHY_EXTRACT ==> r.0 == ExtractReply(request, env)
  {
    match request.Type()
    case 0 => (LoginReply(request, s, env), s)
    case 1 => RegisterReply(request, s, env)
    case 2 => (EncryptReply(request, env), s)
    case 3 => (DecryptReply(request, env), s)
    case 4 => (SolveReply(request, env), s)
    case 5 => (HideReply(request, env), s)
    case 6 => (ExtractReply(request, env), s)
    case _ => (ErrorResponse(UNKNOWN_REQUEST), s)
  }

  /**
    RequestHandler: owns the AuthHandler and with it the credential store;
    the platform facilities are those the auth handler was built with.
  */
  class RequestHandler {
    const auth: AuthHandler

    constructor (db: DatabaseSingleton, env: Env)
      ensures auth.db == db && auth.env == env
    {
      auth := new AuthHandler(db, env);
    }

    /** handleRequest. */
    method HandleRequest(request: Request) returns (response: Response)
      modifies auth.db
      ensures (response, auth.db.State()) == Dispatch(request, old(auth.db.State()), auth.env)
    {
      var env := auth.env;
      match request.Type()
      case 0 => response := auth.HandleLogin(request);
      case 1 => response := auth.HandleRegister(request);
      case 2 => response := HandleTripleDesEncrypt(request);
      case 3 => response := HandleTripleDesDecrypt(request);
      case 4 => response := HandleChordMethodSolve(request);
      case 5 => response := HandleSteganographyHide(request);
      case 6 => response := HandleSteganographyExtract(request);
      case _ => response := ErrorResponse(UNKNOWN_REQUEST);
    }

    /** handleTripleDESEncrypt. */
    method HandleTripleDesEncrypt(request: Request) returns (response: Response)
      ensures response == EncryptReply(request, auth.env)
    {
      var env := auth.env;
      var text := Field(request, "text");
      var key1 := env.fromBase64(Field(request, "key1"));
      var key2 := env.fromBase64(Field(request, "key2"));
      var key3 := env.fromBase64(Field(request, "key3"));
      if text == "" || key1 == [] || key2 == [] || key3 == [] {
        return ErrorResponse(EMPTY_TEXT_OR_KEYS);
      }
      var des := new Crypto.TripleDes(env);
      des.SetKeys(key1, key2, key3);
      var encryptedText := des.EncryptToBase64(text);
      response := Response.WithStatus(SUCCESS);
      response := response.SetData("encrypted_text", Str(encryptedText));
    }

    /** handleTripleDESDecrypt, with its character scan. */
    method HandleTripleDesDecrypt(request: Request) returns (response: Response)
      ensures response == DecryptReply(request, auth.env)
    {
      var env := auth.env;
      var encryptedText := Field(request, "encrypted_text");
      var key1 := env.fromBase64(Field(request, "key1"));
      var key2 := env.fromBase64(Field(request, "key2"));
      var key3 := env.fromBase64(Field(request, "key3"));
      if encryptedText == "" || key1 == [] || key2 == [] || key3 == [] {
        return ErrorResponse(EMPTY_CIPHERTEXT_OR_KEYS);
      }
      var testDecode := env.fromBase64(encryptedText);
      if testDecode == [] && encryptedText != "" {
        return ErrorResponse(NOT_BASE64);
      }
      var des := new Crypto.TripleDes(env);
      des.SetKeys(key1, key2, key3);
      var decryptedText := des.DecryptFromBase64(encryptedText);
      var validText := ScanDecryption(decryptedText, env);
      if !validText {
        return ErrorResponse(INVALID_DECRYPTION);
      }
      response := Response.WithStatus(SUCCESS);
      response := response.SetData("decrypted_text", Str(decryptedText));
    }

    /** handleChordMethodSolve. */
    method HandleChordMethodSolve(request: Request) returns (response: Response)
      ensures response == SolveReply(request, auth.env)
    {
      var env := auth.env;
      var equation := Field(request, "equation");
      var a := ToDouble(request.Data("a"), 0.0);
      var b := ToDouble(request.Data("b"), 0.0);
      var epsilon := ToDouble(request.Data("epsilon"), 0.0001);
      var maxIterations := ToInt(request.Data("max_iterations"), 100);
      if equation == "" {
        return ErrorResponse(EMPTY_EQUATION);
      }
      if env.fuzzyCompare(a, b) {
        return ErrorResponse(EQUAL_BOUNDS);
      }
      if epsilon <= 0.0 {
        return ErrorResponse(NONPOSITIVE_EPSILON);
      }
      if maxIterations <= 0 {
        return ErrorResponse(NONPOSITIVE_ITERATIONS);
      }
      var result := env.solveEquation(equation, a, b, epsilon, maxIterations);
      if result.success {
        response := Response.WithStatus(SUCCESS);
        response := response.SetData("root", Number(result.root));
        response := response.SetData("iterations", FromInt(result.iterations));
        response := response.SetData("precision", Number(result.precision));
        response := response.SetData("status", FromInt(SUCCESS));
      } else {
        response := Response.WithStatus(ERROR);
        response := response.SetErrorMessage(result.errorMessage);
        response := response.SetData("status", FromInt(ERROR));
      }
    }

    /** handleSteganographyHide, with its character scan. */
    method HandleSteganographyHide(request: Request) returns (response: Response)
      ensures response == HideReply(request, auth.env)
    {
      var env := auth.env;
      var imageData := env.fromBase64(Field(request, "image"));
      var message := Field(request, "message");
      if imageData == [] || message == "" {
        return ErrorResponse(EMPTY_IMAGE_OR_MESSAGE);
      }
      if |message| > MAX_HIDE_LENGTH {
        return ErrorResponse(MESSAGE_TOO_LONG);
      }
      for n := 0 to |message|
        invariant forall i | 0 <= i < n :: AllowedInMessage(message[i], env)
      {
        var ch := message[n];
        if !env.isPrint(ch) && !env.isSpace(ch) && ch != '\n' && ch != '\r' && ch != '\t' {
          return ErrorResponse(INVALID_MESSAGE);
        }
      }
      var loaded := env.loadImage(imageData);
      if loaded.None? {
        return ErrorResponse(LOAD_FAILED);
      }
      var image := loaded.value;
      if image.width < 10 || image.height < 10 || image.width * image.height < 100 {
        return ErrorResponse(IMAGE_TOO_SMALL);
      }
      var result := Steganography.HideMessage(image, message, env);
      if result.success {
        var saved := env.savePng(result.image);
        if saved.None? {
          return ErrorResponse(SAVE_FAILED);
        }
        response := Response.WithStatus(SUCCESS);
        response := response.SetData("image", Str(env.toBase64(saved.value)));
        response := response.SetData("message", Str(result.message));
        response := response.SetData("status", FromInt(SUCCESS));
      } else {
        response := Response.WithStatus(ERROR);
        response := response.SetErrorMessage(result.message);
        response := response.SetData("status", FromInt(ERROR));
      }
    }

    /** handleSteganographyExtract. */
    method HandleSteganographyExtract(request: Request) returns (response: Response)
      ensures response == ExtractReply(request, auth.env)
    {
      var env := auth.env;
      var imageData := env.fromBase64(Field(request, "image"));
      if imageData == [] {
        return ErrorResponse(EMPTY_IMAGE);
      }
      var loaded := env.loadImage(imageData);
      if loaded.None? {
        return ErrorResponse(LOAD_FAILED);
      }
      var image := loaded.value;
      if image.width < 10 || image.height < 10 || image.width * image.height < 100 {
        return ErrorResponse(IMAGE_TOO_SMALL);
      }
      assert ExtractInput(request, env) == Some(image);
      var result := Steganography.ExtractMessage(image, env);
      if result.success {
        response := Response.WithStatus(SUCCESS);
        response := response.SetData("message", Str(result.message));
        response := response.SetData("status", FromInt(SUCCESS));
      } else {
        response := Response.WithStatus(ERROR);
        response := response.SetErrorMessage(result.message);
        response := response.SetData("status", FromInt(ERROR));
      }
    }
  }
}
