# UserService: tokens, session ids and the user store

A Dafny model of three parts of `UserService.java`, the service class of a
small Spring Boot user backend:

- **Password-reset tokens** (`generatePasswordResetToken`). Thirty-two random
  bytes are appended to a `StringBuilder` as `String.format("%02x", b)`.
  `ResetToken.GeneratePasswordResetToken` keeps that loop. It is proved to
  produce `Encode` of the bytes. `Encode` is Base16 as in section 8 of
  RFC 4648, but with lowercase digits. A Java `byte` is signed, and `%x`
  prints a negative byte as `b + 256`, so every byte gives exactly two digits.
  `Decode` is the partner: it reads two digits per byte, and the two are
  proved to be inverse bijections.
- **Session ids** (`generateSessionId`). This is `Long.toHexString` of a
  random `long`. `SessionId.GenerateSessionId` renders the unsigned 64-bit
  two's-complement value with the fewest lowercase digits. It is proved to
  give 1 to 16 digits, 16 for every negative `long`, no sign and no leading
  zero. Parsing the text back as an unsigned 64-bit value recovers the `long`.
- **The user store** (`getAllUsers`, `getUserById`, `getUserByEmail`,
  `createUser`, `updateUser`, `deleteUser`). `UserStore.UserService` is a
  class whose `repository` field is a map from the `Long` id to the four
  columns of a `User`. Each state-changing method is proved equal to a pure
  transition (`Create`, `Update`, `Delete`) on the map. Lemmas about those
  transitions state the error cases, what changes and what does not,
  update idempotence and create/delete inversion.

The random bytes and the random `long` are parameters. Drawing them from
`SecureRandom` is outside the model. The id that JPA's `save` assigns to a
new user is also a parameter of `CreateUser`, and must be an unused id.

Java's `byte` and `long` are the subset types `JavaTypes.int8` and
`JavaTypes.int64`. Their unsigned readings (`Unsigned8`, `Unsigned64`) are
written out explicitly. A nullable `String` column is `Option<string>`, with
`None` for `null`. The model takes Spring Data's query for `existsByEmail`/`findByEmail` with
a `null` email to match rows whose email is `null`, and `EmailTaken` compares
the `Option` values in the same way.

`updateUser` does not check whether the new email is already used by another
record. When calls run one at a time, `createUser` keeps emails unique
(`CreateKeepsEmailsUnique`), but
`UpdateCanDuplicateEmail` gives a two-record store that an update leaves
with one email stored twice. The model keeps this behaviour as written.

## Model

| member | source | states |
|---|---|---|
| `Hex.Digit` | src/main/java/com/example/demo/service/UserService.java:101 | the digit for a nibble is in `0-9a-f` and reads back as that nibble |
| `Hex.DigitOfValue` | src/main/java/com/example/demo/service/UserService.java:101 | every lowercase hex digit is the digit of its own value, so digits and nibbles are in bijection |
| `ResetToken.Unsigned8` | src/main/java/com/example/demo/service/UserService.java:101 | the value `%x` prints for a signed byte is less than 256 and congruent to the byte mod 256 |
| `ResetToken.Signed8` | src/main/java/com/example/demo/service/UserService.java:100-102 | the inverse of `Unsigned8` that `Decode` uses to turn two digits back into a byte: every value below 256 is the unsigned reading of exactly the byte returned |
| `ResetToken.FormatByte` | src/main/java/com/example/demo/service/UserService.java:101 | `%02x` of a byte is two lowercase hex digits whose value, high digit first, is the byte's unsigned value |
| `ResetToken.Encode` | src/main/java/com/example/demo/service/UserService.java:99-103 | the encoding of n bytes has exactly 2n characters, all from `0-9a-f` |
| `ResetToken.Decode` | src/main/java/com/example/demo/service/UserService.java:100-102 | a decoded string yields half as many bytes as it has characters |
| `ResetToken.EncodeAppend` | src/main/java/com/example/demo/service/UserService.java:100-102 | appending one byte to the input appends that byte's two digits to the token, as one step of the loop does |
| `ResetToken.EncodeAt` | src/main/java/com/example/demo/service/UserService.java:100-102 | byte i gives its high nibble at position 2i and its low nibble at 2i+1, in input order |
| `ResetToken.DecodeEncode` | src/main/java/com/example/demo/service/UserService.java:100-102 | decoding a token recovers exactly the bytes it was made from |
| `ResetToken.EncodeDecode` | src/main/java/com/example/demo/service/UserService.java:100-102 | every string that decodes is the encoding of the bytes it decodes to |
| `ResetToken.DecodeDefined` | src/main/java/com/example/demo/service/UserService.java:100-102 | a string decodes if and only if it has even length and only lowercase hex digits |
| `ResetToken.GeneratePasswordResetToken` | src/main/java/com/example/demo/service/UserService.java:95-104 | for the 32 random bytes the loop returns exactly their encoding: 64 lowercase hex characters that decode back to the bytes |
| `SessionId.Unsigned64` | src/main/java/com/example/demo/service/UserService.java:119 | the unsigned reading of a `long` is below 2^64, congruent to it mod 2^64, and at least 2^63 exactly when the `long` is negative |
| `SessionId.Signed64` | src/main/java/com/example/demo/service/UserService.java:119 | the inverse of `Unsigned64` that `ParseSessionId` uses to turn a parsed value back into a `long`: every value below 2^64 is the unsigned reading of exactly the `long` returned |
| `SessionId.HexValue` | src/main/java/com/example/demo/service/UserService.java:119 | a hex string of k digits denotes a number below 16^k |
| `SessionId.UnsignedHex` | src/main/java/com/example/demo/service/UserService.java:119 | the rendering of n uses only lowercase digits, has no leading zero unless it is "0", denotes n, and has k digits with 16^(k-1) <= n < 16^k when k > 1 |
| `SessionId.GenerateSessionId` | src/main/java/com/example/demo/service/UserService.java:117-120 | the session id is a canonical lowercase hex numeral, with no sign, of the `long`'s value mod 2^64 |
| `SessionId.ParseSessionId` | src/main/java/com/example/demo/service/UserService.java:119 | a string that parses is lowercase hex, and the parsed `long`'s unsigned reading is the string's value |
| `SessionId.Pow16Monotone` | src/main/java/com/example/demo/service/UserService.java:119 | powers of 16 grow with the exponent, which bounds the number of digits |
| `SessionId.SessionIdLength` | src/main/java/com/example/demo/service/UserService.java:118-119 | a session id has 1 to 16 characters, and exactly 16 when the random `long` is negative |
| `SessionId.SessionIdRoundTrip` | src/main/java/com/example/demo/service/UserService.java:118-119 | parsing a session id as unsigned 64-bit hex gives back the `long` it was rendered from |
| `SessionId.UnsignedHexStep` | src/main/java/com/example/demo/service/UserService.java:119 | adding a low digit d to a number v >= 1 appends that digit to v's rendering |
| `SessionId.UnsignedHexOfValue` | src/main/java/com/example/demo/service/UserService.java:119 | every canonical hex numeral is the rendering of its own value, so rendering is onto the canonical numerals |
| `SessionId.SessionIdFromParse` | src/main/java/com/example/demo/service/UserService.java:118-119 | every canonical numeral that parses is the session id of the `long` it parses to |
| `UserStore.EmailTaken` | src/main/java/com/example/demo/service/UserService.java:40-45 | `existsByEmail` (and a non-empty `findByEmail`) holds exactly when some stored record has this email |
| `UserStore.Create` | src/main/java/com/example/demo/service/UserService.java:44-49 | `createUser` throws exactly when the email is taken; on success it returns the record under the fresh id, stores it there, and adds no other key |
| `UserStore.Update` | src/main/java/com/example/demo/service/UserService.java:51-60 | `updateUser` throws exactly when the id is missing; on success the returned and stored record under that id carry the details' columns, and the key set is unchanged |
| `UserStore.Delete` | src/main/java/com/example/demo/service/UserService.java:63-67 | `deleteUser` throws exactly when the id is missing; afterwards the id is absent and the key set is the old one minus that id |
| `UserStore.CreateOutcome` | src/main/java/com/example/demo/service/UserService.java:44-49 | a taken email throws `UserAlreadyExists` with the store unchanged; otherwise the store gains exactly the new record under the fresh id, and every other record keeps its value |
| `UserStore.UpdateOutcome` | src/main/java/com/example/demo/service/UserService.java:51-60 | a missing id throws `UserNotFound` with the store unchanged; otherwise name, email, phone and address come from the details, the id and key set are kept, and other records are unchanged |
| `UserStore.UpdateIdempotent` | src/main/java/com/example/demo/service/UserService.java:55-60 | applying the same details twice gives the same reply and store as applying them once |
| `UserStore.DeleteOutcome` | src/main/java/com/example/demo/service/UserService.java:63-67 | a missing id throws `UserNotFound` with the store unchanged; otherwise exactly that id is removed and the remaining records keep their values |
| `UserStore.CreateThenDelete` | src/main/java/com/example/demo/service/UserService.java:44-67 | deleting a user just created restores the store it was created in |
| `UserStore.CreateKeepsEmailsUnique` | src/main/java/com/example/demo/service/UserService.java:45-48 | the duplicate-email guard means a store with unique emails still has unique emails after `createUser` |
| `UserStore.DeleteKeepsEmailsUnique` | src/main/java/com/example/demo/service/UserService.java:63-67 | deleting keeps emails unique |
| `UserStore.UpdateCanDuplicateEmail` | src/main/java/com/example/demo/service/UserService.java:51-60 | a store with unique emails from which a successful update produces two records with one email, because `updateUser` has no email guard |
| `UserStore.UserService.constructor` | src/main/java/com/example/demo/service/UserService.java:27-30 | the service starts from the repository contents it is given |
| `UserStore.UserService.GetAllUsers` | src/main/java/com/example/demo/service/UserService.java:32-34 | the result holds exactly the stored records, each with its own id |
| `UserStore.UserService.GetUserById` | src/main/java/com/example/demo/service/UserService.java:36-38 | empty exactly when no record has this id; otherwise the record stored under it, with that id |
| `UserStore.UserService.GetUserByEmail` | src/main/java/com/example/demo/service/UserService.java:40-42 | empty exactly when no stored record has this email; otherwise a stored record with this email and its own id; the store is not changed |
| `UserStore.UserService.CreateUser` | src/main/java/com/example/demo/service/UserService.java:44-49 | the reply and the new repository are those of `Create` on the old repository |
| `UserStore.UserService.UpdateUser` | src/main/java/com/example/demo/service/UserService.java:51-61 | after fetching the record and setting its four columns, the reply and the new repository are those of `Update` |
| `UserStore.UserService.DeleteUser` | src/main/java/com/example/demo/service/UserService.java:63-67 | the reply and the new repository are those of `Delete` on the old repository |

## Left out

- `hashPassword` and `verifyPassword` only call Spring Security's `BCryptPasswordEncoder`, which is not part of this model.
- `parseUserDataXml` sets JAXP feature flags and calls `DocumentBuilder.parse`. The XML parser and its refusal of DOCTYPE declarations live in the library, which is not part of this model.
- `searchUsersByName` builds a native query through JPA's `EntityManager`, a foreign call.
- `readUserFile` is file I/O through `File` and `Scanner`.
- Drawing bytes and a `long` from `SecureRandom` is nondeterministic. The values are parameters instead.
- `UserStore.UserService.CreateUser`: does not model id assignment by JPA's `save`, because it happens inside JPA. The caller passes an unused id. Saving a `User` that already carries an id, which JPA would merge, is not modelled.
- `UserStore.UserService.GetUserByEmail`: when several records share the email, it returns one of them. Spring Data would throw for a single-result query, but that behaviour is in the library.
- `UserStore.UserService.GetAllUsers`: returns a set, so the order of `findAll` is not modelled.
- A `null` id passed to `getUserById`, `updateUser` or `deleteUser` is not modelled. JPA rejects it with `IllegalArgumentException`, and the id type here cannot be null.
- A `null` `user` passed to `createUser`, or a `null` `userDetails` passed to `updateUser`, is not modelled. Java throws `NullPointerException` at `user.getEmail()` or at `userDetails.getName()`, once `findById` has succeeded. A `User` here cannot be null.
- Calls are modelled as running one at a time. `createUser` checks `existsByEmail` and then calls `save` with no lock or transaction, so two concurrent calls with the same email can both pass the check and both save. `CreateKeepsEmailsUnique` holds only for serialized calls, or under a database unique constraint, which is not part of this model.
- The exception messages are not modelled. Each error carries the id or email that its message would report.
- `SessionId.ParseSessionId` is the model's own inverse of `Long.toHexString`. It is not a model of `Long.parseUnsignedLong`, which also accepts uppercase digits and a leading `+`.
- `UserController` and the entity's getters and setters are not part of this model.
