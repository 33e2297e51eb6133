# A verified model of the crypto/steganography/auth server core

The repository is a Qt client/server application. A TCP server accepts
connections, buffers what each client sends until the buffer parses as one
JSON document, and answers it with one JSON response. A request carries a
type (login, register, "Triple DES" encrypt and decrypt, chord-method solve,
steganography hide and extract) and a data object; a response carries a
status (SUCCESS = 0, ERROR = 1), a data object and an error message.

This project models the server side of that exchange and proves what each
part promises:

- `Platform` (platform.dfy): the facilities the core calls but does not
  implement (SHA-256, SHA-384 hex, UTF-8, base64, QChar character classes,
  image decoding and PNG encoding, qFuzzyCompare, the chord-method solver),
  as fields of a record `Env` of function values, with the laws some proofs
  need stated as predicates (base64 and UTF-8 round trips).
- `Json` (json.dfy): JSON values and objects with the lookup, insertion and
  conversion rules of QJsonValue/QJsonObject that the protocol depends on.
- `Protocol` (protocol.dfy): `Request` and `Response`, their JSON form and
  the encode/decode round trips.
- `Database` (database.dfy): the credential store as a map from username to
  password hash with a last-error text, and the `DatabaseSingleton` class
  whose methods update it.
- `Auth` (authhandler.dfy): registration and login replies and the
  `AuthHandler` class.
- `Crypto` (tripledes.dfy): the "Triple DES" engine, which is an XOR of every
  8-byte block with the first 8 bytes of SHA-256(key), composed three times;
  the block loops as methods proved against pass functions, the round trip
  through base64 text, and the fact that the three passes collapse into one.
- `Steganography` (steganography.dfy): the least-significant-bit codec over
  the red channel, with the bit loops as methods proved against functions,
  and the hide/extract round trip.
- `Handlers` (requesthandler.dfy): each handler's validation order, error
  messages and success data as a reply function, the `RequestHandler` class
  whose methods meet them, the dispatcher, and end-to-end lemmas
  (encrypt-then-decrypt, hide-then-extract).
- `Server` (server.dfy): the per-connection buffer table, the read handler
  that dispatches a complete document and writes one reply, and the `Server`
  class with start, stop, connect, disconnect, read and send.

Two kinds of behaviour shown by the proofs are worth knowing:
- decrypting with the wrong keys is reported as SUCCESS with an empty text
  (`Handlers.WrongKeysDecryptToEmptySuccess`);
- the three XOR passes are a single XOR pass with the XOR of the three
  digests as keystream (`Crypto.TripleIsSinglePass`).

## Model

| member | source | states |
|---|---|---|
| Json.Set | network/protocol.cpp:24-26 | after `object[key] = value` the key yields the value and every other key yields what it did; storing Undefined removes the key |
| Json.ToInt | network/protocol.cpp:8 | `toInt(default)` gives the number when it is whole and fits in an int, and the default otherwise |
| Json.FromInt | network/protocol.cpp:15 | an int stored as a JSON number reads back as the same int |
| Protocol.Request.OfType | network/protocol.cpp:5 | a request built from a type has that type and no data |
| Protocol.Request.ToJson | network/protocol.cpp:13-18 | the object has exactly the keys "type" and "data", and decoding it gives the same request back |
| Protocol.Request.SetData | network/protocol.cpp:24-26 | the key now yields the value, every other key and the type are unchanged |
| Protocol.Response.Default | network/protocol.cpp:32 | the default response is SUCCESS with no data and an empty message |
| Protocol.Response.WithStatus | network/protocol.cpp:34 | a response built from a status has that status, no data and an empty message |
| Protocol.Response.ToJson | network/protocol.cpp:43-49 | the object has exactly the keys "status", "data" and "error_message", and decoding it gives the same response back |
| Protocol.Response.SetData | network/protocol.cpp:55-57 | the key now yields the value; status, message and every other key are unchanged |
| Protocol.Response.SetErrorMessage | network/protocol.cpp:63-65 | only the message changes: the status and the data are kept |
| Protocol.ErrorResponse | handlers/requesthandler.cpp:53-55 | the ERROR response every validation failure builds: status ERROR, the given message, no data |
| Protocol.RequestDefaults | network/protocol.cpp:7-11 | an object with none of the fields decodes as type 0 (login) with no data |
| Protocol.ResponseDefaults | network/protocol.cpp:36-41 | an object with none of the fields decodes as SUCCESS with no data and no message |
| Protocol.StatusIndependentOfMessage | network/protocol.cpp:63-65 | setting a message never changes the status: an ERROR can have an empty message and a SUCCESS a non-empty one |
| Database.Register | database/databasesingleton.cpp:81-99 | registration succeeds exactly when the username is new; a success adds (username, hash) and keeps the error text, a refusal keeps the table and records the "user exists" error |
| Database.RegisterKeepsUsers | database/databasesingleton.cpp:81-99 | registration never overwrites a stored hash and adds at most the one username |
| Database.RegisterTwiceFails | database/databasesingleton.cpp:82-85 | a second registration of a username fails, sets the error and leaves the first hash able to log in |
| Database.RegisterThenLogin | database/databasesingleton.cpp:101-115 | after a successful registration the same hash logs in and every other hash is refused |
| Database.DatabaseSingleton.constructor | database/databasesingleton.cpp:8-10 | a new store has no users and no error |
| Database.DatabaseSingleton.RegisterUser | database/databasesingleton.cpp:81-99 | the result and the new store are those of `Register` on the old store |
| Database.DatabaseSingleton.LoginUser | database/databasesingleton.cpp:101-115 | true exactly when the table maps the username to this hash |
| Database.DatabaseSingleton.UserExists | database/databasesingleton.cpp:117-129 | true exactly when the username is in the table |
| Auth.RegisterReply | handlers/authhandler.cpp:8-37 | empty fields are refused without touching the store; otherwise the store registers the SHA-384 hash; SUCCESS exactly when both fields are non-empty and the username is new, with the success message, else an ERROR carrying the empty-fields text or the store's last error |
| Auth.LoginReply | handlers/authhandler.cpp:39-69 | SUCCESS exactly when both fields are non-empty and the store maps the username to the SHA-384 hash of the password, carrying the message and the username; otherwise ERROR with the empty-fields or the invalid-credentials text |
| Auth.LoginFailureIsUniform | handlers/authhandler.cpp:63-68 | with non-empty fields every login failure gives the same response, so an unknown user and a wrong password look alike |
| Auth.RegisterThenLoginSucceeds | handlers/authhandler.cpp:8-69 | after a successful registration, logging in with the same username and password succeeds |
| Auth.StoreSeesOnlyHash | handlers/authhandler.cpp:20-24 | two passwords with the same SHA-384 hash give the same registration reply and store |
| Auth.AuthHandler.constructor | handlers/authhandler.cpp:4-6 | the handler uses the given shared store |
| Auth.AuthHandler.HandleRegister | handlers/authhandler.cpp:8-37 | the response and the new store are those of `RegisterReply` on the old store |
| Auth.AuthHandler.HandleLogin | handlers/authhandler.cpp:39-69 | the response is `LoginReply` on the store, which it does not change |
| Crypto.NormalizeKey | crypto/tripledes.cpp:10-20 | a stored key is exactly 8 bytes: the key's first bytes, then zero bytes |
| Crypto.Left | crypto/tripledes.cpp:12-14 | `left(n)` is a prefix of length min(n, size) |
| Crypto.EncryptPass | crypto/tripledes.cpp:97-124 | an encrypting pass has the data's length rounded up to a whole block |
| Crypto.DecryptPass | crypto/tripledes.cpp:127-155 | a decrypting pass has the data's length rounded down to a whole block |
| Crypto.StripTrailingNuls | crypto/tripledes.cpp:67-69 | the result is a prefix that does not end in a zero byte, and only zero bytes were removed |
| Crypto.DecryptText | crypto/tripledes.cpp:54-83 | decryption that does not start with the "UTF8:" marker gives the empty string |
| Crypto.EncryptPassAt | crypto/tripledes.cpp:106-121 | byte j of an encrypting pass is zero-padded data byte j XOR digest byte j mod 8 |
| Crypto.DecryptPassAt | crypto/tripledes.cpp:135-152 | byte j of a decrypting pass is data byte j XOR digest byte j mod 8 |
| Crypto.PassesUseFirstEightBytes | crypto/tripledes.cpp:116-118 | two digests that agree on their first 8 bytes give the same passes |
| Crypto.DecryptDropsPartialBlock | crypto/tripledes.cpp:140-144 | a trailing partial block does not affect the decrypting pass |
| Crypto.PassRoundTrip | crypto/tripledes.cpp:97-155 | decrypting an encrypting pass with the same key gives the data zero-padded to a whole block |
| Crypto.PassesCancelOnBlocks | crypto/tripledes.cpp:97-155 | on whole blocks the two passes undo each other in either order |
| Crypto.TripleRoundTrip | crypto/tripledes.cpp:22-38 | decrypt(encrypt(d)) is d zero-padded to a whole block |
| Crypto.TripleIsSinglePass | crypto/tripledes.cpp:22-29 | the three passes equal one encrypting pass keyed by the byte-wise XOR of the three digests |
| Crypto.StripZeroRun | crypto/tripledes.cpp:67-69 | stripping gives back data that does not end in zero with any run of zero bytes appended |
| Crypto.TextRoundTrip | crypto/tripledes.cpp:40-83 | decryptFromBase64(encryptToBase64(t)) == t under the same keys, when base64 and UTF-8 round-trip and the UTF-8 bytes of t do not end in zero |
| Crypto.PadBlock | crypto/tripledes.cpp:111-113 | the padded block has 8 bytes: the block, then zero bytes |
| Crypto.XorBlock | crypto/tripledes.cpp:116-118 | byte t of the block is XORed with digest byte t |
| Crypto.EncryptBlock | crypto/tripledes.cpp:108-118 | one block of the encrypting loop: bytes i..i+7 of the zero-padded data XOR the first 8 digest bytes |
| Crypto.DecryptBlock | crypto/tripledes.cpp:137-149 | one block of the decrypting loop: shorter than 8 bytes exactly when fewer than 8 data bytes remain, otherwise data bytes i..i+7 XOR the first 8 digest bytes |
| Crypto.TripleDes.constructor | crypto/tripledes.cpp:6-8 | a new engine has empty keys |
| Crypto.TripleDes.SetKeys | crypto/tripledes.cpp:10-20 | each stored key is the normalised input key |
| Crypto.TripleDes.DesEncrypt | crypto/tripledes.cpp:97-124 | the block loop's output is the encrypting pass with the SHA-256 digest of the key |
| Crypto.TripleDes.DesDecrypt | crypto/tripledes.cpp:127-155 | the block loop, stopping at a partial block, outputs the decrypting pass with the SHA-256 digest of the key |
| Crypto.TripleDes.Encrypt | crypto/tripledes.cpp:22-29 | passes with key 1, 2 and 3: encrypt, decrypt, encrypt |
| Crypto.TripleDes.Decrypt | crypto/tripledes.cpp:31-38 | passes with key 3, 2 and 1: decrypt, encrypt, decrypt |
| Crypto.TripleDes.EncryptToBase64 | crypto/tripledes.cpp:40-52 | the base64 text of the encrypted marker-prefixed UTF-8 bytes |
| Crypto.TripleDes.DecryptFromBase64 | crypto/tripledes.cpp:54-83 | the marker check, the zero-stripping loop and the UTF-8 decoding give `DecryptText` |
| Steganography.MaxMessageLength | steganography/steganography.cpp:171-175 | with room for the header it is the number of whole bytes after the 32 header pixels; without, C++ truncation makes it zero or negative |
| Steganography.BytesToBits | steganography/steganography.cpp:177-188 | eight bits per byte |
| Steganography.BitsToBytes | steganography/steganography.cpp:190-204 | one byte per group of 8 bits, a short final group included |
| Steganography.PackBits | steganography/steganography.cpp:195-199 | OR-ing set bits at weight 2^j rebuilds the low bits of the byte they came from |
| Steganography.PackGroup | steganography/steganography.cpp:193-201 | group k of the bits of a byte string packs back to byte k |
| Steganography.BitsRoundTrip | steganography/steganography.cpp:177-204 | bitsToString's byte packing undoes stringToBits' bit splitting |
| Steganography.BitsOfPrefix | steganography/steganography.cpp:177-188 | the first 8n bits are the bits of the first n bytes |
| Steganography.LengthBits | steganography/steganography.cpp:46-58 | the header has k bits, and reading them back as a value below 2^k gives the length |
| Steganography.BitsValue | steganography/steganography.cpp:94-108 | the value the `|= bit << i` loop builds is below 2^n for n bits |
| Steganography.AsInt32 | steganography/steganography.cpp:107 | a 32-bit pattern read as a C++ int is its unsigned value below 2^31 and that value minus 2^32 from 2^31 up |
| Steganography.SignBitHeader | steganography/steganography.cpp:94-108 | the header is a negative int exactly when pixel 31's red LSB is set |
| Steganography.SignBitMeansNoMessage | steganography/steganography.cpp:94-115 | an image of at least 32 pixels whose header has the sign bit set is rejected as "no message" |
| Steganography.BitsValueSnoc | steganography/steganography.cpp:107 | one step of the `|=` loop adds the new bit's weight |
| Steganography.SetRedLsbFacts | steganography/steganography.cpp:54-57 | rewriting the red LSB stores the bit and keeps every other bit of the pixel |
| Steganography.Coordinates | steganography/steganography.cpp:96-102 | x = i mod width and y = i div width address pixel i, and y is inside the image exactly when i is |
| Steganography.WriteRedLsb | steganography/steganography.cpp:50-57 | writing a pixel keeps the buffer's length; out-of-image coordinates change nothing; an in-image write sets that pixel's red LSB and leaves every other pixel alone |
| Steganography.RedBits | steganography/steganography.cpp:104-105 | the red LSBs of n consecutive pixels are n bits |
| Steganography.RedBitsSnoc | steganography/steganography.cpp:131-134 | reading one more pixel appends its red LSB |
| Steganography.Embed | steganography/steganography.cpp:44-74 | the embedded buffer has the source's length |
| Steganography.EmbedPrefixStep | steganography/steganography.cpp:61-73 | writing bit n at pixel n extends the embedding of the first n bits by one |
| Steganography.Hide | steganography/steganography.cpp:8-81 | hiding succeeds exactly when the image is not null and the message is non-empty and within maxMessageLength; a success keeps the image size, a failure carries the null image |
| Steganography.Extract | steganography/steganography.cpp:83-159 | a success returns the same image and a message of printable or white-space characters; a failure carries the null image; a null image is NOT_LOADED and fewer than 32 pixels is TOO_SMALL_FOR_HEADER; a header length that is not positive or beyond maxMessageLength is "no message" |
| Steganography.SizeChecksAreRedundant | steganography/steganography.cpp:31-36 | a length within maxMessageLength always leaves room for the header and its bits, so the later size checks never fire |
| Steganography.HideStoresBits | steganography/steganography.cpp:44-74 | a hidden image's red LSBs are the header bits then the payload bits, as far as the image reaches |
| Steganography.HideKeepsOtherBits | steganography/steganography.cpp:41-74 | hiding changes only the red LSB of the pixels written; every other bit, channel and pixel is kept |
| Steganography.HiddenHeader | steganography/steganography.cpp:44-58 | the header of a hidden image reads back as the message length |
| Steganography.ExtractWithValidHeader | steganography/steganography.cpp:110-159 | with a plausible header length n, extraction decodes the red LSBs of the next 8n pixels and checks the characters |
| Steganography.HiddenBits | steganography/steganography.cpp:60-74 | the payload pixels carry the bits of the first |message| UTF-8 bytes |
| Steganography.HiddenPayload | steganography/steganography.cpp:8-159 | extraction from a hidden image reads back as many UTF-8 bytes as the message has characters, decoded and checked |
| Steganography.HideExtractRoundTrip | steganography/steganography.cpp:8-159 | extracting from a hidden image gives the message back when UTF-8 round-trips, the message has one UTF-8 byte per character and all are printable or white space |
| Steganography.StringToBits | steganography/steganography.cpp:177-188 | the nested loops produce the bits of the UTF-8 bytes, least significant first |
| Steganography.BitsToString | steganography/steganography.cpp:190-204 | the nested loops produce the packed bytes, decoded as UTF-8 |
| Steganography.HideMessage | steganography/steganography.cpp:8-81 | the checks and the two write loops give `Hide` |
| Steganography.ExtractRejectsSupplementary | steganography/steganography.cpp:140-147 | when the character test sees each UTF-16 unit, no extracted message holds a character outside the Basic Multilingual Plane |
| Steganography.ScanPrintable | steganography/steganography.cpp:140-147 | the scan reports true exactly when every character is printable or white space |
| Steganography.ExtractMessage | steganography/steganography.cpp:83-159 | the two read loops, their bounds checks and the character scan give `Extract` |
| Handlers.EncryptReply | handlers/requesthandler.cpp:44-70 | SUCCESS exactly when the text and the three decoded keys are non-empty, carrying the ciphertext under the normalised keys; otherwise the empty-fields ERROR |
| Handlers.ScanDecryption | handlers/requesthandler.cpp:103-113 | the scan reports true exactly when no character is a rejected ASCII control character |
| Handlers.DecryptReply | handlers/requesthandler.cpp:72-135 | SUCCESS exactly when ciphertext and keys are non-empty, the ciphertext decodes to some bytes and the decryption has no rejected character, carrying the decryption; otherwise ERROR with the message of the first failing check |
| Handlers.WrongKeysDecryptToEmptySuccess | handlers/requesthandler.cpp:99-134 | when the decrypted bytes lack the marker, the reply is SUCCESS with an empty decrypted text |
| Handlers.EncryptThenDecrypt | handlers/requesthandler.cpp:44-135 | decrypting an encrypt reply's ciphertext with the same key fields gives the text back |
| Handlers.DecryptSucceeds | handlers/requesthandler.cpp:130-134 | the success case of the decrypt reply, stated on its inputs |
| Handlers.SolveInputOf | handlers/requesthandler.cpp:139-143 | epsilon defaults to 0.0001 and max_iterations to 100 |
| Handlers.SolveReply | handlers/requesthandler.cpp:137-188 | an invalid request is an ERROR with the message of the first failing check and no data; otherwise the solver's root, iterations and precision on SUCCESS, or its message on ERROR, with "status" mirroring the outcome |
| Handlers.HideRejectsSupplementary | handlers/requesthandler.cpp:209-216 | when the character test sees each UTF-16 unit, a message holding a character outside the Basic Multilingual Plane is INVALID_MESSAGE |
| Handlers.HideReply | handlers/requesthandler.cpp:190-272 | a request failing a check is an ERROR with no data, with the empty-fields, too-long and invalid-character messages named; otherwise the PNG as base64 with the engine's message on success, the save-failure ERROR, or the engine's ERROR with "status" 1 |
| Handlers.ExtractReply | handlers/requesthandler.cpp:274-327 | an empty, undecodable or too small image is an ERROR with its message; otherwise SUCCESS with the extracted message or ERROR with the engine's message, "status" mirroring the outcome |
| Handlers.HideSuccessCase | handlers/requesthandler.cpp:240-256 | a SUCCESS hide reply means every check passed, the engine hid the message and saving worked, and the reply's image is that PNG in base64 |
| Handlers.HideThenExtract | handlers/requesthandler.cpp:190-327 | sending a hide reply's image back in an extract request gives the message back, for a message with one UTF-8 byte per character, all printable or white space |
| Handlers.Dispatch | handlers/requesthandler.cpp:12-42 | each of the seven types is routed to its handler's reply; any other type is the unknown-request ERROR; only registration changes the store |
| Handlers.RequestHandler.constructor | handlers/requesthandler.cpp:8-10 | the handler's auth handler uses the given store |
| Handlers.RequestHandler.HandleRequest | handlers/requesthandler.cpp:12-42 | the response and the new store are those of `Dispatch` on the old store |
| Handlers.RequestHandler.HandleTripleDesEncrypt | handlers/requesthandler.cpp:44-70 | the response is `EncryptReply` |
| Handlers.RequestHandler.HandleTripleDesDecrypt | handlers/requesthandler.cpp:72-135 | the response is `DecryptReply` |
| Handlers.RequestHandler.HandleChordMethodSolve | handlers/requesthandler.cpp:137-188 | the response is `SolveReply` |
| Handlers.RequestHandler.HandleSteganographyHide | handlers/requesthandler.cpp:190-272 | the checks, the character loop and the engine give `HideReply` |
| Handlers.RequestHandler.HandleSteganographyExtract | handlers/requesthandler.cpp:274-327 | the checks and the engine give `ExtractReply` |
| Server.Receive | server.cpp:83-97 | a read appends to the sender's buffer and leaves every other buffer alone; the buffer parses exactly when a request comes out, and it is then emptied, otherwise kept whole |
| Server.SplitDocument | server.cpp:88-96 | a document split over two reads is handled as if it came in one |
| Server.ParsedBufferRestarts | server.cpp:94-96 | after a complete document the buffer is empty and the next read starts afresh |
| Server.ReadyRead | server.cpp:83-106 | a read from no socket changes nothing; an incomplete document changes only the buffer; a complete one is dispatched, and its reply is written when the socket is open |
| Server.ReadyReadIsolated | server.cpp:83-118 | a read from one client keeps every other client's buffer and writes at most one reply, to that client |
| Server.Server.constructor | server.cpp:6-15 | a new server is not listening, has no clients and has written nothing |
| Server.Server.Start | server.cpp:22-36 | an already listening server reports success; otherwise the result and the listening state are the outcome of listening |
| Server.Server.Stop | server.cpp:38-50 | a listening server asks every client to disconnect, forgets them all and stops listening; otherwise nothing changes |
| Server.Server.OnNewConnection | server.cpp:56-67 | the new client gets an empty buffer, and the count grows by one for a new client |
| Server.Server.OnClientDisconnected | server.cpp:69-81 | the sender, when it is a socket, leaves the table and no other client is touched |
| Server.Server.OnReadyRead | server.cpp:83-106 | the buffers, the store and the writes afterwards are those of `ReadyRead` |
| Server.Server.SendResponse | server.cpp:108-118 | the serialised response is written only to a socket that is open |

## Left out

- The chord-method solver (math/chordmethod.cpp) and floating point: the
  solver is a parameter, doubles are `real`, and qFuzzyCompare is a parameter.
- The client, the dialogs and the main window: they are not part of the
  server core.
- SHA-256, SHA-384, UTF-8, base64, QChar::isPrint/isSpace, QImage decoding and
  PNG encoding: they are parameters; only the round-trip laws the proofs need
  are stated, as predicates.
- I/O and Qt's event loop: sockets are connection numbers, the bytes read,
  whether the socket is open, whether listening succeeds and the JSON parser
  and serialiser are parameters; `disconnectFromHost` is recorded in a set.
- nextPendingConnection returning null is not modelled: a new connection is
  always a socket.
- The database's SQL plumbing: init, createTables, close and failing queries
  are left out, so registration fails only for an existing username and
  login never sets an error. The singleton and its mutex are one shared
  object. The source's store is the SQLite file that init opens, so users
  outlive a server restart; the model's store starts empty in each run.
- TripleDES::generateRandomKey (randomness) and the unused DES helpers
  (initialPermutation, finalPermutation, feistelFunction, generateSubkeys)
  are left out.
- The try/catch blocks of the handlers: the engines are total here, so the
  exception paths are unreachable in the model.
- QString lengths are Dafny string lengths (`|s|`), so a character outside the
  Basic Multilingual Plane counts once rather than as two UTF-16 units.
  The character scans of the hide handler and of extractMessage test each
  UTF-16 unit, and a lone surrogate is never printable or space; the model
  tests the code point, so that rejection holds only under the law
  `SupplementaryNeverPrintable`, which `Handlers.HideRejectsSupplementary`
  and `Steganography.ExtractRejectsSupplementary` assume.
- convertToFormat(ARGB32) is the identity on the pixel values.
- Request and Response are values and `setData`/`setErrorMessage` return the
  updated copy, which is exact for these C++ value types.
- Steganography::saveImage and loadImage (file I/O) are left out; the
  handlers use loadFromData and save-to-buffer, which are parameters.
- Handlers.HideReply: for the load and size checks the ensures
  states only an ERROR with no data, not which message.
- Crypto.DecryptText: its own ensures covers only the missing-marker case;
  the full behaviour is stated by `Crypto.TextRoundTrip` and by
  `Crypto.TripleDes.DecryptFromBase64`, which is proved against it.
- Server.Server.IsRunning, Server.Server.ClientCount and
  Database.DatabaseSingleton.LastError are plain readers of a field and carry
  no contract of their own; so do Protocol.Request.Type, Protocol.Request.Data,
  Protocol.Response.Status, Protocol.Response.Data and
  Protocol.Response.ErrorMessage, whose behaviour the SetData, SetErrorMessage
  and constructor rows state.
- Protocol.Request.FromJson and Protocol.Response.FromJson (the JSON
  constructors, network/protocol.cpp:7-11 and 36-41) have no contract of their
  own: the ToJson rows state that they undo ToJson, and
  Protocol.RequestDefaults and Protocol.ResponseDefaults state how they read
  missing keys.
- Database.Login is the loginUser query as a predicate; its meaning is stated
  by Database.RegisterThenLogin and Database.DatabaseSingleton.LoginUser.
- Steganography.HeaderLength is the header read of extractMessage
  (steganography/steganography.cpp:94-108) as a function; its meaning is stated
  by Steganography.HiddenHeader, Steganography.SignBitHeader and
  Steganography.Extract.
- Crypto.Encrypt3, Crypto.Decrypt3 and Crypto.EncryptText are the
  specification functions of Crypto.TripleDes.Encrypt, Crypto.TripleDes.Decrypt
  and Crypto.TripleDes.EncryptToBase64; their properties are
  Crypto.TripleRoundTrip, Crypto.TripleIsSinglePass and Crypto.TextRoundTrip.
