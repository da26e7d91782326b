# URL shortener core, modelled in Dafny

The system is a small Symfony service. A signed-in user stores long URLs as
short links. Each link has a five-character random code, a short URL built
from the server's name and that code, a category, a visit counter and an
update time. The services do the following:

- `LinksService` creates, updates, deletes and lists the current user's
  links, finds a link by its code, and counts visits;
- `UserService` resolves the current user from the token storage and creates
  users;
- `RandomStringsService` draws the codes;
- `ShorterService` is a base-62 codec between link ids and codes.

The model has seven modules:

| file | module | contents |
|---|---|---|
| `common.dfy` | `Common` | PHP's `empty()` on strings and ints; the services' exceptions as an `Error` datatype; `Result`/`Outcome` for a call that returns or throws |
| `charset.dfy` | `Charset` | the 62-character alphabet, PHP's negative string offset and `strpos` |
| `shorter.dfy` | `Shorter` | `encode` and `decode` as loops, proved against recursive reference functions; the round-trip theorem, its counterexample, the fixed test vectors and the corrected codec |
| `random_strings.dfy` | `RandomStrings` | `make` as a loop over a supplied function of draws |
| `entity.dfy` | `Entity` | the `User` record; `Link` as a class whose setters change one field and return the object itself; `jsonSerialize` |
| `users.dfy` | `Users` | `UserService` as a class over a user table and an optional token |
| `links.dfy` | `Links` | `LinksService` as a class over a map from id to `Link` object, with the next auto-increment id; `makeShortUrl`; a value-level `Lookup` that specifies `getById`; the service tests' call sequences |

Things the model treats as parameters:

- The Doctrine repository is a `map<int, Link>` plus the next id, and
  `persist`/`flush`/`remove` take effect at once.
- The token storage is `Option<User>`.
- `mt_rand` is a function from call number to a value in 0..61.
- `new DateTime()` is a `Timestamp` parameter.
- `$_SERVER['HTTPS']` and `$_SERVER['SERVER_NAME']` are a `ServerEnv` parameter.
- The password encoder is an arbitrary function.

An invalid argument carries the name of the parameter that failed. For the
link and user services this is the parameter the message names. For
`encode`, whose message names none, the model labels it `urlId`. The label
makes the order of the checks part of every contract.

`LinksService.Valid()` is the store invariant. Each key holds a link whose id
is that key and lies below the next id, so distinct keys hold distinct
objects. Each stored link also has every NOT NULL column set. Every
state-changing method of `LinksService` keeps `Valid()`. `Update`, `Delete`,
`Visit` and `Persist` state the new store through `Table()`, the store seen as
rows. `Create` states it through `links` and the new link's `Row()`.
`UserService.CreateUser` states its new state through `users` and `nextId`.

## Model

| member | source | states |
|---|---|---|
| Common.EmptyString | src/Services/LinksService.php:89 | PHP `empty()` on a string: true for "" and for "0", as every string check of the link and user services applies it |
| Common.EmptyInt | src/Services/LinksService.php:126 | PHP `empty()` on an int: true only for 0, so a negative id passes |
| Common.EmptyOptString | src/Services/LinksService.php:69 | PHP `empty()` on a possibly unset `$_SERVER['HTTPS']`: true when unset, "" or "0" |
| Charset.AlphabetLayout | src/Services/ShorterService.php:17 | the alphabet has 62 characters: a-z, then A-Z, then 0-9, each block in code-point order |
| Charset.AlphabetSpelling | src/Services/RandomStringsService.php:15 | the three-block constant equals the literal the services declare, proved block by block |
| Charset.AlphabetDistinct | src/Services/ShorterService.php:17 | no character occurs twice in the alphabet |
| Charset.AlphabetLast | src/Services/ShorterService.php:39 | the last character, the one offset -1 reads, is '9' |
| Charset.StringOffset | src/Services/ShorterService.php:39 | reading `$s[$k]` with a negative k counts from the end |
| Charset.StrPos | src/Services/ShorterService.php:59 | `strpos` is None (PHP false) exactly when the character is absent; otherwise it is the first offset holding it |
| Charset.StrPosAlphabet | src/Services/ShorterService.php:59 | searching the alphabet for its own i-th character finds i |
| Shorter.DigitsNumeral | src/Services/ShorterService.php:38-41 | the reference base-62 digits of n are below 62, denote n, and have no leading zero |
| Shorter.DigitsLength | src/Services/ShorterService.php:38-41 | n >= 1 has k digits exactly when 62^(k-1) <= n < 62^k |
| Shorter.DigitChar | src/Services/ShorterService.php:39 | remainder d is written as ALPHABET[d - 1], and 0 as '9'; the result is '9' iff d is 0 |
| Shorter.DigitCharValue | src/Services/ShorterService.php:39 | decode reads the character of remainder d back as d, except that the '9' of remainder 0 reads as 62 |
| Shorter.Reverse | src/Services/ShorterService.php:43 | `strrev`: same length, character i is character len-1-i of the input |
| Shorter.Encode | src/Services/ShorterService.php:30-44 | below 1 is an invalid `urlId`; otherwise the loop's reversed accumulation equals the most-significant-first code `Encoded(urlId)` |
| Shorter.EncodeStep | src/Services/ShorterService.php:38-41 | one loop iteration keeps "code so far reversed, after the code of what is left" equal to the full code |
| Shorter.EncodedDigits | src/Services/ShorterService.php:38-43 | the code spells n's base-62 digits most significant first, digit d as `DigitChar(d)` |
| Shorter.EncodedShape | src/Services/ShorterService.php:38-43 | for n >= 1 the code is non-empty, uses only alphabet characters, and never starts with '9' |
| Shorter.EncodedLengthBound | src/Services/ShorterService.php:38-43 | for n >= 1 the code has k characters exactly when 62^(k-1) <= n < 62^k |
| Shorter.CharValue | src/Services/ShorterService.php:59 | a character's digit value is its alphabet offset + 1; outside the alphabet (strpos false) it is 1 |
| Shorter.Decode | src/Services/ShorterService.php:53-63 | the `for` loop's accumulated id equals the left fold `Decoded`; there is no error path |
| Shorter.DecodedSnoc | src/Services/ShorterService.php:55-62 | decode("") = 0, and decode(s + c) = 62 * decode(s) + value(c), which is 62 * decode(s) + 1 for a character outside the alphabet |
| Shorter.DecodedEncodedBound | src/Services/ShorterService.php:38-60 | decode(encode(n)) >= n, with equality iff no base-62 digit of n is 0 |
| Shorter.RoundTripIff | src/Services/ShorterService.php:38-60 | for n >= 1, decode(encode(n)) = n iff no base-62 digit of n is 0 |
| Shorter.RoundTripNoNine | src/Services/ShorterService.php:38-60 | for n >= 1, the round trip holds iff encode(n) contains no '9' |
| Shorter.RoundTripCounterexample | src/Services/ShorterService.php:39-59 | encode(62) = "a9" and decode("a9") = 124 |
| Shorter.TestVector1 | tests/Services/ShorterServiceTest.php:55 | 1 encodes to "a", and "a" decodes to 1 |
| Shorter.TestVector2 | tests/Services/ShorterServiceTest.php:56 | 12312 and "clJ" map to each other in both directions |
| Shorter.TestVector3 | tests/Services/ShorterServiceTest.php:57 | 13878455 and "5nzc" map to each other in both directions |
| Shorter.TestVector4 | tests/Services/ShorterServiceTest.php:58 | 123428776556 and "bjShIlN" map to each other in both directions |
| Shorter.TestVector5 | tests/Services/ShorterServiceTest.php:59 | 67465334 and "dIdXH" map to each other in both directions |
| Shorter.VectorDecodes | tests/Services/ShorterServiceTest.php:42-45 | a vector whose code has no '9' decodes back to its id |
| Shorter.CorrectedRoundTrip | src/Services/ShorterService.php:58-60 | decode inverts the bijective base-62 encoder on every id, and ids >= 1 get non-empty codes |
| Shorter.CorrectedEncodesDecoded | src/Services/ShorterService.php:58-60 | every alphabet string is the corrected encoding of its decode, so decode is one-to-one on such strings |
| Shorter.CorrectedAgrees | src/Services/ShorterService.php:38-43 | where n has no zero digit, the as-written encoder equals the corrected one |
| RandomStrings.Generated | src/Services/RandomStringsService.php:31-34 | n draws spell a string of length n whose character i is ALPHABET[draw i], in draw order |
| RandomStrings.Make | src/Services/RandomStringsService.php:28-37 | the result has exactly `length` characters (none when length <= 0), is the string the draws spell, and lies over the alphabet |
| RandomStrings.DefaultCodeShape | src/Services/LinksService.php:95 | the default-length code `create` draws has 5 characters, all from the alphabet |
| RandomStrings.GeneratedCovers | src/Services/RandomStringsService.php:32 | every alphabet string of length n is made by some run of draws |
| Entity.Link.constructor | src/Entity/Link.php:79-82 | a new link has counter 0 and no other field set |
| Entity.Link.SetUrl | src/Entity/Link.php:111-116 | sets url, leaves every other field, returns the same object |
| Entity.Link.SetShortUrl | src/Entity/Link.php:135-140 | sets shortUrl, leaves every other field, returns the same object |
| Entity.Link.SetCode | src/Entity/Link.php:159-164 | sets code, leaves every other field, returns the same object |
| Entity.Link.SetCategory | src/Entity/Link.php:183-188 | sets category, leaves every other field, returns the same object |
| Entity.Link.SetUpdatedAt | src/Entity/Link.php:217-222 | sets updatedAt, leaves every other field, returns the same object |
| Entity.Link.SetUser | src/Entity/Link.php:241-246 | sets the owner, leaves every other field, returns the same object |
| Entity.Link.IncCounter | src/Entity/Link.php:253-258 | the counter goes up by exactly 1; nothing else changes |
| Entity.Link.JsonSerialize | src/Entity/Link.php:263-275 | exactly the eight keys; `userId` is the owner's id; every field is read back from its key |
| Entity.JsonSerializeInjective | src/Entity/Link.php:263-275 | two links serialise alike iff they agree on every field and their owners share an id |
| Users.Registered | src/Services/UserService.php:85 | `findOneBy(['username' => …])` finds a row: some stored user has that username |
| Users.UserService.GetCurrentUser | src/Services/UserService.php:60-69 | the token's user when a token is stored, otherwise an invalid-token failure |
| Users.UserService.HasUser | src/Services/UserService.php:78-91 | an empty username is an invalid `username`; otherwise true iff some stored user has that username |
| Users.UserService.CreateUser | src/Services/UserService.php:102-116 | `username` is checked before `password`; a taken username makes the flush fail; the result is Ok iff both are given and the name is free; on failure nothing is stored; on success the user with the encoded password is stored under the next id and is then registered |
| Users.CreateThenHas | tests/Services/UserServiceTest.php:113-131 | after a successful creation `hasUser` is true, and creating the same username again fails |
| Links.Scheme | src/Services/LinksService.php:69 | "https" iff HTTPS is set, not empty and not "off"; otherwise "http" |
| Links.MakeShortUrl | src/Services/LinksService.php:65-73 | the URL is scheme, "://", server name, "/", code; its length and its parts are fixed |
| Links.ShortUrlInjective | src/Services/LinksService.php:65-73 | under one server, two short URLs are equal iff their codes are equal |
| Links.NewLink | src/Services/LinksService.php:97-104 | the setter chain on a new link gives a fresh link with every field but the id set, counter 0 |
| Links.Rewrite | src/Services/LinksService.php:135-138 | `update`'s setter chain sets url, category and updatedAt and keeps code, shortUrl, counter and owner |
| Links.LinksService.Persist | src/Services/LinksService.php:105-106 | the new link gets the next id and is stored under it; the table gains exactly that row; the invariant holds |
| Links.LinksService.Create | src/Services/LinksService.php:87-109 | `url` then `category` are checked, then the token; Ok iff all pass; on failure nothing is stored; on success a fresh link is stored under the next id, with the generated code, its short URL, the given url and category, counter 0, the clock value and the current user |
| Links.LinksService.Update | src/Services/LinksService.php:124-141 | `id`, `url`, `category` are checked in that order, then the token; Done iff the id holds a link of the current user, which is otherwise not found; on failure the table is unchanged; on success only that row's url, category and updatedAt change |
| Links.LinksService.Delete | src/Services/LinksService.php:154-163 | `id` is checked, then the token; Done iff the id holds a link of the current user; on success exactly that row is removed and the next id is kept |
| Links.LinksService.GetById | src/Services/LinksService.php:176-190 | id 0 is an invalid `id`, a missing token an invalid token; Ok iff the id holds a link of the current user, which is returned; the outcome is `Lookup` on the table |
| Links.LinksService.GetByCode | src/Services/LinksService.php:202-215 | an empty code is an invalid `code`; Ok iff some stored link has that code, whoever owns it, and the result is such a link; otherwise not found |
| Links.LinksService.Visit | src/Services/LinksService.php:226-233 | counter + 1 and a new update time on the visited link, no owner check; no other row changes |
| Links.LinksService.GetAll | src/Services/LinksService.php:242-247 | a missing token is an invalid token; otherwise exactly the stored links of the current user |
| Links.LinksService.GetByCategory | src/Services/LinksService.php:259-267 | an empty category is an invalid `category`, checked before the token; otherwise exactly the current user's links in that category |
| Links.OwnedBy | src/Services/LinksService.php:183 | the repository filter `'user' => $currentUser->getId()`: the row has an owner whose id is the current user's |
| Links.Lookup | src/Services/LinksService.php:178-189 | the value-level `getById`: id 0 is an invalid `id`, no token an invalid token, and otherwise the row under the id when the current user owns it, else not found |
| Links.LookupSingleOwner | src/Services/LinksService.php:183 | a link is found for only one owner id |
| Links.ForeignLinkLooksMissing | src/Services/LinksService.php:183 | another user's link gives the same outcome as an absent one |
| Links.NegativeIdNotFound | src/Services/LinksService.php:178-186 | a negative id passes `empty()` and is then not found, since stored ids start at 1 |
| Links.LookupAfterRemove | src/Services/LinksService.php:160-161 | after a row is removed its id is never found |
| Links.LookupAfterChange | src/Services/LinksService.php:134-140 | changing one row keeps its owner, so it is still found with the new contents, and every other id's lookup is unchanged |
| Links.UpdateThenFind | tests/Services/LinkServiceTest.php:79-117 | after the update succeeds, `getById` returns the same link with the new url and category, and `getByCode` finds a link with its code |
| Links.DeleteThenFind | tests/Services/LinkServiceTest.php:180-187 | deleting one's own link succeeds, and `getById` of that id is then not found |
| Links.CreateUpdateDelete | tests/Services/LinkServiceTest.php:60-187 | the tests' sequence: create, update, find by id and by code, delete, then not found |

## Left out

- Controllers (`LinkController`, `AuthController`): HTTP routing, JSON responses and the mapping from exceptions to status codes are not part of this model.
- Getters (`getId`, `getUrl`, `getCounter`, …): they return a field. The model reads the `Link` fields directly, or all of them through `Row()`.
- `getUpdatedAt`'s date formatting: `Timestamp` is an abstract clock value.
- `mt_rand`, `new DateTime()` and `$_SERVER` are parameters. A missing `SERVER_NAME` entry (PHP warning, null) is not modelled: the server name is always a string.
- The JWT token storage and bcrypt are foreign libraries. The token is the `User` it carries or none; the encoder is an arbitrary function of username and password.
- Doctrine: `persist`, `flush` and `remove` act on the map at once. Transactions, the identity map and lazy loading are not modelled. The order of `findBy` results is lost, because the model returns a set.
- Links.LinksService.GetByCode: the link returned when several links share a code is any one of them, not the one MySQL would return first. The links table has no unique index on `code`.
- Links.LinksService.Visit: requires a link that is stored under its id. The source would also persist a detached link as a new row; the model does not.
- Links.LinksService.GetAll and Links.LinksService.GetByCategory: they return a set of objects, not a PHP array, so duplicates and order are not represented.
- The database collation (`utf8mb4_unicode_ci`) compares codes, usernames and categories case-insensitively. The model compares strings exactly.
- Users.UserService.CreateUser: a taken username fails on the unique index at the flush. It is modelled as `StorageFailure`, with nothing stored.
- Entity.Link.JsonSerialize: requires an owner. On a link without one, `$this->user->getId()` stops PHP with an error, and the model does not represent that error. Every serialised link is stored, and `user_id` is NOT NULL.
- PHP 64-bit integer overflow in `encode` and `decode` is not modelled: ids are unbounded `nat` and `int`.
- Strings are sequences of characters, not bytes. `strlen` and `$s[$i]` on multi-byte input are not modelled.
- Concurrent requests and lost counter updates are not modelled.
- Migrations, fixtures and the test harness setup are not part of this model, apart from the schema facts cited above.
- `getCurrentUser` returning a non-`User` value for an anonymous token is not modelled: a stored token always carries a `User`.

## Findings

| source | as written | input that shows it | evidently intended | confidence | as-written member | corrected member |
|---|---|---|---|---|---|---|
| src/Services/ShorterService.php:39 | `encode` writes remainder d as `ALPHABET[d - 1]` with d in 0..61, so 0 reads offset -1 ('9'), while `decode` (line 59) reads digit values 1..62 | 62 encodes to "a9", which decodes to 124 | a bijective base-62 encoder that `decode` inverts: digit value (n - 1) % 62 + 1, then (n - 1) / 62 | high (proved; not executed) | Shorter.RoundTripCounterexample | Shorter.CorrectedRoundTrip |
