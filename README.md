# sendkey — a Dafny model of the entry lifecycle, the user service and the migration runner

sendkey stores one-time secrets ("entries"). A signed-in user creates an entry: a name, a recipient
email, a value, a secret and a lifetime. The value is sealed with AES-GCM under a key derived from
the server key and the secret. The recipient reveals it once, using the entry's id, its nonce as
lowercase hex, and the secret. A reveal with the right secret returns the plain value. It also
writes a "claimed" record and deletes the entry. A wrong secret counts an invalid attempt; once the
count reaches the configured maximum, the entry is expired. An entry whose expiry has passed is
expired when it is next looked up or listed. Expiring writes an "expired" record and deletes the
entry. Users register with an email and a password, which is stored as a bcrypt hash, and log in
with them. At start-up the MySQL layer runs the `.sql` migration files that are not yet recorded.
It splits each script into statements on a delimiter that `delimiter X` lines can change.

The model is split into modules:

- `Wrappers` and `Storage`: Option and Result values, plus the two store errors that matter (no rows, duplicate key).
- `GoStrings`: the parts of Go's `strings`, `path` and `sort` packages and of the `[]byte(s)` conversion that the core uses.
- `Hex`: `hex.EncodeToString` and its decoding counterpart.
- `Crypto`: the entry cipher. SHA-256 and AES-GCM are abstract functions that obey stated laws.
- `SendKey`: the records and their JSON views.
- `EntryStore`: the MySQL entry repository. It is a class whose tables are sequences; each operation is specified by a function on rows.
- `Entries`: the entry service. It is a class whose methods are proved against specification functions over a `Tables` value.
- `EntryLaws`: lemmas about those specification functions.
- `Users`: the user service, with the repository as an in-memory class and bcrypt as abstract functions obeying laws.
- `Migrations`: migration selection, the statement splitter, the run loop and `mysqlBool`.

Parameters stand in for the clock, the random nonce, the new uuid and the bcrypt salt. Each
service call takes one `now`.

## Model

| member | source | states |
|---|---|---|
| GoStrings.LeadingSpaceSpec | internal/mysql/db.go:283 | the leading run counted is all white space and is followed by a non-space |
| GoStrings.TrailingSpaceSpec | internal/mysql/db.go:283 | the trailing run counted is all white space and is preceded by a non-space |
| GoStrings.TrimSpaceSpec | internal/app/entries.go:61-72 | TrimSpace is trimmed at both ends; it is empty iff the input is all white space; otherwise it is the slice of the input after the leading space, with only white space after it |
| GoStrings.TrimSpaceEmpty | internal/app/users.go:44-47 | TrimSpace is empty iff every character of the input is white space |
| GoStrings.TrimSpaceSlice | internal/mysql/db.go:283 | TrimSpace is trimmed and is a slice of the input followed only by white space |
| GoStrings.TrimSpaceOfTrimmed | internal/mysql/db.go:310 | trimming a trimmed string changes nothing |
| GoStrings.TrimSpaceKeepsLast | internal/mysql/db.go:310 | a string that does not end in white space keeps its last character when trimmed |
| GoStrings.TrimSpaceKeepsPrefix | internal/mysql/db.go:310 | a non-empty prefix that begins and ends with non-space remains a prefix after trimming |
| GoStrings.IndexFrom | internal/mysql/db.go:287-288 | the result is -1 or an occurrence at or after the start; an empty pattern is found at the start |
| GoStrings.IndexFromFirst | internal/mysql/db.go:287-288 | there is no occurrence between the start and the result |
| GoStrings.Index | internal/mysql/db.go:287-288 | strings.Index answers -1 or an occurrence |
| GoStrings.IndexFirst | internal/mysql/db.go:287-288 | strings.Index answers the first occurrence, and -1 only when there is none |
| GoStrings.IndexIs | internal/mysql/db.go:287-288 | an occurrence with none before it is the index |
| GoStrings.IndexOfCharFacts | internal/mysql/db.go:315 | the index of a character is -1 iff the character is absent; otherwise the character is there and not before it |
| GoStrings.IndexOfChar | internal/mysql/db.go:315 | the first position of a character is its index |
| GoStrings.RemoveChar | internal/mysql/db.go:322 | removing every occurrence of a character leaves none and does not lengthen the string |
| GoStrings.RemoveCharConcat | internal/mysql/db.go:322 | removing a character distributes over concatenation |
| GoStrings.RemoveCharAbsent | internal/mysql/db.go:322 | removing an absent character changes nothing |
| GoStrings.ToLower | internal/mysql/db.go:258 | strings.ToLower maps each character and keeps the length |
| GoStrings.ExtBefore | internal/mysql/db.go:258 | the extension is empty or a suffix that starts with the last dot and has no dot or slash after it; it is empty only when every dot is followed by a slash |
| GoStrings.Ext | internal/mysql/db.go:258 | path.Ext is a suffix that starts with '.' and has no further dot or slash; it is empty iff the last path element has no dot |
| GoStrings.LessEqReflexive | internal/mysql/db.go:265 | the string order compared by sort.Strings is reflexive |
| GoStrings.LessEqTotal | internal/mysql/db.go:265 | the string order is total |
| GoStrings.LessEqTransitive | internal/mysql/db.go:265 | the string order is transitive |
| GoStrings.LessEqAntisymmetric | internal/mysql/db.go:265 | the string order is antisymmetric |
| GoStrings.EncodeRune | internal/app/entries.go:83 | a character's UTF-8 encoding has 1 to 4 bytes, and its lead byte announces that length |
| GoStrings.DecodeEncodeRune | internal/app/entries.go:83 | decoding a character's UTF-8 encoding gives the character back |
| GoStrings.EncodeRuneInjective | internal/app/entries.go:83 | distinct characters have distinct encodings |
| GoStrings.EncodeRunePrefix | internal/app/entries.go:83 | encodings are prefix-free: equal concatenations start with the same character |
| GoStrings.Utf8 | internal/app/entries.go:83 | `[]byte(s)` has at least as many bytes as s has characters |
| GoStrings.Utf8Injective | internal/app/users.go:66 | distinct strings have distinct byte forms, so comparing bytes compares the strings |
| Hex.DigitValue | internal/app/entries.go:133 | a hex digit has a value below 16; upper- and lowercase digits decode |
| Hex.Digit | internal/app/entries.go:133 | the digit written for a value is lowercase and decodes back to the value |
| Hex.EncodeToString | internal/app/entries.go:133 | the encoding has two lowercase hex digits per byte |
| Hex.DecodeString | internal/app/entries.go:133 | a decoded string has twice as many characters as bytes |
| Hex.DecodeEncode | internal/app/entries.go:133 | decoding an encoding gives the bytes back |
| Hex.DigitOfValue | internal/app/entries.go:133 | a lowercase digit is the digit written for its value |
| Hex.EncodeCons | internal/app/entries.go:133 | a byte is encoded as its high digit followed by its low digit |
| Hex.EncodeDecode | internal/app/entries.go:133 | a lowercase hex string that decodes is the encoding of its decoding |
| Hex.EncodeInjective | internal/app/entries.go:133 | two byte strings have the same encoding iff they are equal |
| Hex.IsEncodingOf | internal/app/entries.go:133 | the nonce check accepts exactly the strings that are all lowercase hex and decode to the nonce |
| Hex.UpperCaseIsNotAnEncoding | internal/app/entries.go:133 | an uppercase spelling of the nonce decodes to the nonce but fails the check |
| Crypto.Encrypt | internal/app/entries.go:215-228 | sealing fails exactly when the derived key has an invalid AES size |
| Crypto.Decrypt | internal/app/entries.go:230-243 | opening succeeds with the opened value when the key size is valid and the seal opens, and fails otherwise |
| Crypto.EncryptSucceeds | internal/app/entries.go:215-228 | with the laws, a SHA-256 key always has a valid size, so sealing succeeds |
| Crypto.DecryptEncrypt | internal/app/entries.go:215-243 | opening under the same secret and nonce gives back the sealed value |
| Crypto.DecryptWrongSecret | internal/app/entries.go:230-243 | the value sealed under one secret does not open under a secret that derives a different key: authentication fails |
| Crypto.SoundCipherExists | internal/app/entries.go:215-243 | the cipher laws are satisfiable |
| SendKey.Keys | sendkey.go:9-54 | the keys of a JSON object, in field order |
| SendKey.UserJsonHidesPassword | sendkey.go:9-17 | a user's JSON has no password key and exactly the six other fields |
| SendKey.UserJsonDeterminesUser | sendkey.go:9-17 | two users have the same JSON iff they differ at most in the password |
| SendKey.EntryJsonHidesSecrets | sendkey.go:19-29 | an entry's JSON has neither the nonce nor the value and shows the attempt count |
| SendKey.EntryJsonDeterminesEntry | sendkey.go:19-29 | two entries have the same JSON iff they differ at most in nonce and value |
| SendKey.TerminalRecordsJsonInjective | sendkey.go:31-46 | the JSON of a claimed or expired record determines the record; the claimed keys are the five fields, and the expired record shows tooManyAttempts |
| SendKey.RefreshTokenJsonInjective | sendkey.go:48-54 | a refresh token's JSON determines the token |
| EntryStore.HasIdCons | internal/mysql/entries.go:24-43 | a row with the id is the first row or one in the rest |
| EntryStore.Lookup | internal/mysql/entries.go:24-58 | `SELECT ... WHERE ID = ?` finds a row iff one has the id, and the row found has it |
| EntryStore.HasIdCons2 | internal/mysql/entries.go:24-43 | the empty table has no row with the id; a non-empty one has it first or later |
| EntryStore.LookupUnique | internal/mysql/entries.go:24-58 | under unique ids, looking up a row's id finds that row |
| EntryStore.Without | internal/mysql/entries.go:110-113 | deleting never adds rows |
| EntryStore.WithoutRows | internal/mysql/entries.go:110-113 | after `DELETE ... WHERE ID = ?` no row has the id, and the rows kept are exactly the others |
| EntryStore.WithoutAbsent | internal/mysql/entries.go:110-113 | deleting an absent id changes nothing |
| EntryStore.WithoutPresent | internal/mysql/entries.go:110-113 | deleting a present id under unique ids removes exactly one row |
| EntryStore.WithoutKeepsUniqueIds | internal/mysql/entries.go:110-113 | deleting keeps ids unique |
| EntryStore.LookupWithout | internal/mysql/entries.go:110-113 | deleting one id does not change what another id finds |
| EntryStore.Incremented | internal/mysql/entries.go:115-126 | the UPDATE keeps the number of rows |
| EntryStore.IncrementedRows | internal/mysql/entries.go:115-126 | each row is bumped if it has the id and left alone otherwise |
| EntryStore.IncrementedKeepsIds | internal/mysql/entries.go:115-126 | the UPDATE keeps the set of ids and their uniqueness |
| EntryStore.LookupIncremented | internal/mysql/entries.go:115-126 | after the UPDATE the row read back is the old one with one more attempt, and it is missing iff it was missing before |
| EntryStore.LookupIncrementedOther | internal/mysql/entries.go:115-126 | the UPDATE does not change what another id finds |
| EntryStore.Owned | internal/mysql/entries.go:60-108 | `WHERE sentByUserID = ?` keeps exactly the user's rows |
| EntryStore.InsertByCreatedPermutes | internal/mysql/entries.go:65 | inserting a row into the ordering adds exactly that row |
| EntryStore.InsertByCreatedSorted | internal/mysql/entries.go:65 | inserting into a list sorted by createdAtUtc keeps it sorted |
| EntryStore.SortedByCreatedCons | internal/mysql/entries.go:65 | a row no later than every row of a sorted list can be put in front of it |
| EntryStore.InsertByCreatedAfterHead | internal/mysql/entries.go:65 | inserting a row later than the head leaves the head least |
| EntryStore.OrderByCreated | internal/mysql/entries.go:65 | `ORDER BY createdAtUtc` answers a permutation of the rows, sorted by creation time |
| EntryStore.OrderedOwnedRows | internal/mysql/entries.go:60-108 | the ordered answer holds exactly the user's rows and only rows sent by the user |
| EntryStore.Store.constructor | internal/mysql/entries.go:11-13 | a new store has three empty tables |
| EntryStore.Store.Create | internal/mysql/entries.go:15-22 | the INSERT appends the entry, or fails with the duplicate-key error and changes nothing when the id is taken |
| EntryStore.Store.Find | internal/mysql/entries.go:24-58 | Find answers the row with the id, or none when there are no rows |
| EntryStore.Store.FindByUserID | internal/mysql/entries.go:60-108 | the answer is the user's rows ordered by creation time; it holds exactly the user's rows |
| EntryStore.Store.Delete | internal/mysql/entries.go:110-113 | the rows with the id are removed and nothing else changes |
| EntryStore.Store.IncrementInvalidAttempts | internal/mysql/entries.go:115-126 | the id's row gets one more attempt; the new count is returned, or ErrNoRows when there is no row |
| EntryStore.Store.CreateClaimedEntry | internal/mysql/entries.go:128-135 | the claimed record is appended to its table |
| EntryStore.Store.CreateExpiredEntry | internal/mysql/entries.go:137-144 | the expired record is appended to its table |
| Entries.Checks | internal/app/entries.go:58-76 | there is one check per validation rule |
| Entries.Select | internal/app/entries.go:58-76 | collecting messages never gives more messages than rules |
| Entries.SelectMembers | internal/app/entries.go:58-76 | a message is collected iff its rule failed; only rule messages are collected; nothing is collected iff every rule holds |
| Entries.CreateEntryErrorsByRule | internal/app/entries.go:58-76 | each of the six messages is reported iff its rule fails: no sender; blank name; blank email; blank value; blank secret; a duration that is not positive |
| Entries.CreateEntryErrorsNone | internal/app/entries.go:58-80 | only the six messages are reported, and none iff all six rules hold |
| Entries.RuleMessage | internal/app/entries.go:58-76 | the k-th message is reported iff the k-th rule fails |
| Entries.CreateMessagesDistinct | internal/app/entries.go:58-76 | the six messages are pairwise distinct |
| Entries.EntryService.constructor | internal/app/entries.go:37-39 | the service holds the repository, the key and the maximum number of attempts it is given |
| Entries.EntryService.CreateEntry | internal/app/entries.go:56-116 | the store and the answer are those of CreateSpec: validate, seal, insert |
| Entries.EntryService.FindEntry | internal/app/entries.go:123-138 | the store and the answer are those of FindSpec: a missing row is none; a lapsed one is expired and none; a wrong nonce is none |
| Entries.EntryService.FindByUserID | internal/app/entries.go:140-160 | the store and the answer are those of ListSpec over the user's rows in creation order |
| Entries.EntryService.KeepLive | internal/app/entries.go:147-159 | the loop over the rows keeps the live ones in order and expires the others, as ListFrom does |
| Entries.EntryService.DecryptEntry | internal/app/entries.go:175-213 | the store and the answer are those of DecryptSpec |
| Entries.EntryService.ExpireEntry | internal/app/entries.go:251-271 | the record written is the entry's expired record; it is appended and the entry is deleted |
| Entries.EntryService.IncrementInvalidAttempts | internal/app/entries.go:273-284 | the store and the answer are those of IncrementSpec: count one more attempt, and expire once the count reaches the maximum |
| Entries.EntryService.ClaimEntry | internal/app/entries.go:286-305 | the record written is the entry's claimed record; it is appended and the entry is deleted |
| Entries.CreateRejectsInvalid | internal/app/entries.go:77-80 | a request that breaks a rule is answered with its errors, no success and no entry, and the store is unchanged |
| Entries.CreateSpecStores | internal/app/entries.go:82-116 | a valid request whose seal succeeds stores the new entry under the id, unless the id is taken |
| Entries.ListFromLive | internal/app/entries.go:149-152 | a live row is kept and the loop goes on |
| Entries.ListFromLapsed | internal/app/entries.go:154-156 | a lapsed row is expired, not kept, and the loop goes on |
| Entries.IncrementedWf | internal/mysql/entries.go:115-126 | counting an attempt keeps the entry ids unique |
| EntryLaws.UniqueIdsSame | internal/mysql/entries.go:15-22 | under unique ids, two rows with the same id are the same row |
| EntryLaws.ExpireWf | internal/app/entries.go:251-271 | expiring keeps the ids unique |
| EntryLaws.ClaimWf | internal/app/entries.go:286-305 | claiming keeps the ids unique |
| EntryLaws.FindWf | internal/app/entries.go:123-138 | FindEntry keeps the ids unique and changes nothing when it finds a row |
| EntryLaws.DecryptWf | internal/app/entries.go:175-213 | DecryptEntry keeps the ids unique |
| EntryLaws.CreateWf | internal/app/entries.go:56-116 | CreateEntry keeps the ids unique |
| EntryLaws.CreateStoresEntry | internal/app/entries.go:82-115 | a valid request with a fresh id succeeds; the entry has the name and sender as given, the trimmed email, the nonce, no attempts and expiry at creation plus the duration, and it is appended |
| EntryLaws.CreateDuplicateId | internal/app/entries.go:100-103 | a valid request with a taken id fails with the store's duplicate-key error, and nothing changes |
| EntryLaws.FindAbsent | internal/app/entries.go:125-127 | an unknown id finds nothing and changes nothing |
| EntryLaws.FindLapsed | internal/app/entries.go:128-131 | a lapsed entry is not found; it is expired, not with too many attempts, deleted, and recorded |
| EntryLaws.FindLive | internal/app/entries.go:133-137 | a live entry is answered iff the nonce is its lowercase hex, that is, iff the nonce is lowercase hex that decodes to its bytes; nothing changes |
| EntryLaws.Kept | internal/app/entries.go:147-159 | the kept rows are no more than the rows |
| EntryLaws.Lapsed | internal/app/entries.go:147-159 | the lapsed rows are no more than the rows |
| EntryLaws.KeptLapsedMembers | internal/app/entries.go:149 | the live rows are kept and the rows at or past expiry have lapsed |
| EntryLaws.ExpiredRecords | internal/app/entries.go:251-261 | one expired record per lapsed row |
| EntryLaws.DeleteAllMembers | internal/app/entries.go:265 | deleting the lapsed rows keeps exactly the rows whose id is not among them |
| EntryLaws.KeptSorted | internal/app/entries.go:147-159 | keeping the live rows keeps creation order |
| EntryLaws.ListFromAnswer | internal/app/entries.go:147-159 | the answer is the live rows in order |
| EntryLaws.ListFromExpired | internal/app/entries.go:147-159 | the lapsed rows get expired records, in order, with no claimed record |
| EntryLaws.ListFromEntries | internal/app/entries.go:147-159 | exactly the lapsed rows are deleted |
| EntryLaws.ListSpecResult | internal/app/entries.go:140-160 | listing answers exactly the user's live entries, sorted by creation; it records each lapsed one as expired |
| EntryLaws.DecryptNotFound | internal/app/entries.go:182-185 | when FindEntry finds nothing, the answer is "invalid entry id" with no success |
| EntryLaws.RevealWrongSecret | internal/app/entries.go:187-202 | a wrong secret counts one attempt. The answer is "invalid secret", plus "too many attempts" once the count reaches the maximum, in which case the entry is expired with tooManyAttempts; otherwise only the count changes |
| EntryLaws.IncrementFound | internal/app/entries.go:273-284 | counting an attempt on a stored entry reads back one more attempt, and expires the entry iff the new count reaches the maximum |
| EntryLaws.RevealRightSecret | internal/app/entries.go:204-212 | the right secret answers the entry with the plain value, records the claim and deletes the entry |
| EntryLaws.RevealAtMostOnce | internal/app/entries.go:175-213 | after a successful reveal, any later request for the id is answered "invalid entry id" |
| EntryLaws.ExpireTotal | internal/app/entries.go:251-271 | expiring moves one entry into the expired table; the number of entries and records together is kept, and the tables only grow |
| EntryLaws.FindTotal | internal/app/entries.go:123-138 | FindEntry keeps the total and only grows the tables |
| EntryLaws.DecryptTotal | internal/app/entries.go:175-213 | DecryptEntry keeps the total and only grows the tables |
| EntryLaws.ListFromTotal | internal/app/entries.go:147-159 | the listing loop keeps the total |
| EntryLaws.OwnedUnique | internal/mysql/entries.go:60-108 | the user's rows have unique ids |
| EntryLaws.RepeatCounted | internal/mysql/entries.go:65 | a repeated row is counted twice |
| EntryLaws.PermutationUnique | internal/mysql/entries.go:65 | reordering keeps ids unique |
| EntryLaws.CountAtMostOne | internal/mysql/entries.go:65 | under unique ids, a row occurs at most once |
| EntryLaws.ListTotal | internal/app/entries.go:140-160 | listing keeps the total and only grows the tables |
| EntryLaws.CreateThenReveal | internal/app/entries.go:56-213 | an entry just created, revealed before expiry with its hex nonce and its secret, answers the original value |
| EntryLaws.CreateThenWrongSecret | internal/app/entries.go:56-202 | an entry just created, asked with a secret that derives another key, answers "invalid secret" and is kept with one attempt counted |
| Users.SoundBcryptExists | internal/app/users.go:66-69 | the bcrypt laws are met by a bcrypt that, like the real one, reads only the password and a zero byte cut to 72 bytes |
| Users.SeventyTwoByteCut | internal/app/users.go:123-131 | with that bcrypt, the hash of a 72-byte password also matches the password followed by any byte, so the second law cannot cover such passwords |
| Users.FindById | internal/app/users.go:12-18 | a user is found iff one has the id, and the one found has it |
| Users.FindByEmail | internal/app/users.go:12-18 | a user is found iff one has exactly the email, and the one found has it |
| Users.FindByEmailUnique | internal/app/users.go:56-64 | under unique emails, the user found for an email is the one that has it |
| Users.UserStore.constructor | internal/app/users.go:12-18 | a new repository is empty |
| Users.UserStore.Find | internal/app/users.go:12-18 | Find answers the user with the id |
| Users.UserStore.FindByEmailAddress | internal/app/users.go:12-18 | FindByEmailAddress answers the user with the email |
| Users.UserStore.Create | internal/app/users.go:79-82 | the user is appended, or the duplicate-key error is raised when the id is taken |
| Users.RequiredErrors | internal/app/users.go:45-51 | "email required" iff the email is empty and "password required" iff the password is; no other message; none iff both are given |
| Users.UserService.constructor | internal/app/users.go:24-26 | the service holds the repository it is given |
| Users.UserService.CreateUser | internal/app/users.go:41-87 | the repository and answer are those of CreateUserSpec |
| Users.UserService.Login | internal/app/users.go:100-137 | the answer is that of LoginSpec |
| Users.UserService.FindUser | internal/app/users.go:139-141 | FindUser answers the user with the id |
| Users.CreateUserRejectsInvalid | internal/app/users.go:44-54 | a blank email (after trimming) or an empty password is answered with each failing rule's message, in order, and nothing is stored |
| Users.CreateUserDuplicateEmail | internal/app/users.go:56-64 | a taken trimmed email is answered with the duplicate-account message; nothing is stored |
| Users.CreateUserStores | internal/app/users.go:66-86 | a valid request stores one user with the id, the trimmed email, the names, not verified, and the bcrypt hash as password, which matches the password |
| Users.CreateUserKeepsUnique | internal/app/users.go:41-87 | creating users keeps ids and emails unique |
| Users.LoginDoesNotTrim | internal/app/users.go:100-120 | login checks the email as given: a blank but non-empty email gets past validation and is looked up |
| Users.LoginOutcomes | internal/app/users.go:100-137 | login succeeds iff the fields are given, the email is found and the password matches, and then answers that user. No such user, a mismatch, and a bcrypt failure are answered distinctly |
| Users.CreateThenLogin | internal/app/users.go:41-137 | a user just created logs in with the trimmed email and the password; any other password is refused when both are at most 71 bytes with no zero byte |
| Migrations.MigrationFiles | internal/mysql/db.go:256-263 | the names kept are exactly those of the files that are not directories and whose extension is ".sql" in any case |
| Migrations.IsMigrationFileBySuffix | internal/mysql/db.go:258 | for a plain file name, the test is: not a directory and the last four characters are ".sql" in any case |
| Migrations.SqlSuffixIsExt | internal/mysql/db.go:258 | a name ending in ".sql" in any case has those four characters as extension |
| Migrations.InsertPermutes | internal/mysql/db.go:265 | insertion adds exactly the one name |
| Migrations.InsertSorted | internal/mysql/db.go:265 | insertion keeps a sorted list sorted |
| Migrations.SortedCons | internal/mysql/db.go:265 | a name no greater than a sorted list can go in front |
| Migrations.InsertAboveHead | internal/mysql/db.go:265 | inserting a greater name leaves the head least |
| Migrations.SortStrings | internal/mysql/db.go:265 | sort.Strings answers a sorted permutation |
| Migrations.SortedTail | internal/mysql/db.go:265 | the tail of a sorted list is sorted |
| Migrations.SortedHeadLeast | internal/mysql/db.go:265 | the head of a sorted list is least |
| Migrations.SameTails | internal/mysql/db.go:265 | permutations with the same head have permuted tails |
| Migrations.SortedUnique | internal/mysql/db.go:265 | two sorted permutations of each other are equal, so the order of migrations is determined |
| Migrations.SelectedMigrations | internal/mysql/db.go:256-265 | the migrations are the ".sql" file names, sorted; any sorted permutation of them is that list |
| Migrations.ScanValue | internal/mysql/db.go:342-365 | Scan reads back what Value writes; other bytes leave the value unchanged without error; a non-byte source is an error; the encoding is one byte and distinguishes the two values |
| Migrations.NextStep | internal/mysql/db.go:286-331 | a statement or a delimiter change always shortens the script that is left |
| Migrations.Cut | internal/mysql/db.go:294-310 | cutting at an occurrence emits a statement and shortens the script |
| Migrations.Directive | internal/mysql/db.go:313-330 | a directive either stops the split or changes the delimiter and shortens the script |
| Migrations.NewDelimiterSpec | internal/mysql/db.go:321-323 | a new delimiter has no newline and is trimmed |
| Migrations.NextStepBranches | internal/mysql/db.go:287-313 | the split step fails iff neither the delimiter nor "delimiter " occurs; it emits iff the delimiter occurs first; it takes a directive iff "delimiter " occurs no later |
| Migrations.NextStepEmit | internal/mysql/db.go:294-310 | an emitted statement ends at the first delimiter, which it includes only when the delimiter is ";"; the rest is trimmed and starts after the characters skipped |
| Migrations.NextStepIsCut | internal/mysql/db.go:294-310 | an emitting step cuts at the first delimiter |
| Migrations.NextStepDirective | internal/mysql/db.go:313-330 | a directive stops iff no newline is left; otherwise the new delimiter is taken from the first line and the rest starts after it |
| Migrations.DelimiterDirective | internal/mysql/db.go:313-330 | a `delimiter d` line followed by t changes the delimiter to d trimmed and goes on with t trimmed |
| Migrations.DirectiveLine | internal/mysql/db.go:315-330 | in a script starting with a directive line, the keyword is at 0 and the first newline ends the line |
| Migrations.NewDelimiterOfLine | internal/mysql/db.go:321-323 | the line `delimiter d` gives d trimmed |
| Migrations.SplitUnterminated | internal/mysql/db.go:290-292 | a script with neither the delimiter nor a directive is the "unexpected end" case |
| Migrations.SplitEmit | internal/mysql/db.go:294-310 | an emitted statement comes first among the statements split from the script |
| Migrations.ExecRejected | internal/mysql/db.go:303-305 | when the database rejects the first statement, the migration fails with that statement |
| Migrations.ExecAccepted | internal/mysql/db.go:303-305 | when it accepts the first statement, execution goes on with the rest |
| Migrations.SplitDirective | internal/mysql/db.go:313-330 | a delimiter change goes on splitting the rest with the new delimiter |
| Migrations.NoOccurrenceInSlice | internal/mysql/db.go:287-288 | a pattern absent from a string is absent from its slices |
| Migrations.NoOccurrenceInSuffix | internal/mysql/db.go:287-288 | a pattern absent from a concatenation is absent from its suffix |
| Migrations.NoOccurrenceAfterTrim | internal/mysql/db.go:310 | a pattern absent from a string is absent after slicing and trimming |
| Migrations.SemicolonUnterminated | internal/mysql/db.go:290-292 | a script with no semicolon and no directive is not complete and gives no statement |
| Migrations.SemicolonCut | internal/mysql/db.go:294-310 | with ";" the statement is everything up to and including the first semicolon |
| Migrations.SemicolonTurn | internal/mysql/db.go:294-310 | one step of a semicolon script emits a statement that ends with its only semicolon, and leaves a shorter trimmed script with the same last character |
| Migrations.SemicolonStatements | internal/mysql/db.go:283-331 | a script without directives splits into statements that each end with their only semicolon, and is complete iff it is empty or ends with a semicolon |
| Migrations.OneCharacterKeepsDelimiterTail | internal/mysql/db.go:310 | as written, after a delimiter of two or more characters the rest begins with the delimiter's tail |
| Migrations.WholeDelimiterResumesAfterIt | internal/mysql/db.go:310 | when the whole delimiter is skipped, the script is the statement, then the delimiter, then the rest; the statement has no delimiter in it |
| Migrations.CutWholeDelimiter | internal/mysql/db.go:294-310 | the same facts for a cut at the first occurrence |
| Migrations.AdvanceAgreesOnShortDelimiters | internal/mysql/db.go:310 | for a one-character delimiter both ways of resuming agree |
| Migrations.DirectiveScriptHead | internal/mysql/db.go:283-331 | a script that begins with `delimiter d` is split on d from the next line |
| Migrations.DirectiveScriptCut | internal/mysql/db.go:294-310 | the statement before d is cut off, and the rest is what the advance leaves of d |
| Migrations.DelimiterTailUnterminated | internal/mysql/db.go:290-292 | the tail of a delimiter, left alone, is the "unexpected end" case |
| Migrations.OneCharacterRejectsDirectiveScript | internal/mysql/db.go:310 | as written, `delimiter d`, a newline, a statement and d, for a d of two or more characters, executes the statement but is then reported incomplete |
| Migrations.WholeDelimiterAcceptsDirectiveScript | internal/mysql/db.go:310 | skipping the whole delimiter, that script is one statement and complete |
| Migrations.DollarScript | internal/mysql/db.go:310 | `delimiter $$`, a newline, then `A$$`: incomplete as written, and complete when the whole delimiter is skipped |
| Migrations.ExecStatementsSpec | internal/mysql/db.go:286-331 | execution logs a prefix of the statements, each accepted after the ones before it. There is no error iff all ran and the script was complete; "unexpected end" iff all ran and it was not; a failure names the next statement, which was refused |
| Migrations.ExecFirst | internal/mysql/db.go:303-305 | an accepted first statement is logged, and execution goes on |
| Migrations.Pending | internal/mysql/db.go:267-277 | the pending migrations are the names not recorded |
| Migrations.RunFromRecorded | internal/mysql/db.go:274-276 | a migration whose exact name is recorded is skipped (the database's collation is left out) |
| Migrations.RunFromUnreadable | internal/mysql/db.go:278-282 | an unreadable file stops the run with a read error |
| Migrations.RunFromRuns | internal/mysql/db.go:283-337 | a pending migration's script is run; an error stops the run; otherwise it is recorded and the run goes on |
| Migrations.RunFromRecords | internal/mysql/db.go:267-337 | the names recorded only grow, by pending names in order; a run without error records every pending name |
| Migrations.RunFromAllApplied | internal/mysql/db.go:267-337 | when every migration is recorded, a run executes and records nothing |
| Migrations.RunTwice | internal/mysql/db.go:267-337 | running again after a successful run changes nothing |
| Migrations.MigrationDb.constructor | internal/mysql/db.go:238-248 | a new database has the recorded names given and no migrations or statements yet |
| Migrations.MigrationDb.SelectMigrations | internal/mysql/db.go:250-265 | the migrations are the selected ".sql" names, sorted |
| Migrations.MigrationDb.ExecScript | internal/mysql/db.go:283-331 | the loop that trims, splits and executes a script leaves the log and error of the Executor specification |
| Migrations.MigrationDb.RunMigrations | internal/mysql/db.go:238-340 | selects the migrations and then runs them as RunFrom specifies, with names compared exactly |
| Migrations.MigrationDb.ApplyMigrations | internal/mysql/db.go:267-337 | the loop over the migrations leaves the names recorded, the log and the error of RunFrom, with names compared exactly |

## Left out

- SHA-256, AES-GCM and bcrypt internals: they are abstract functions. The model states only the laws the service relies on: a sealed value opens under the same key and nonce and under no other key; a hash matches its own password, and no other password when both passwords are at most 71 bytes with no zero byte.
- Users.CreateThenLogin: the refusal of another password is stated only for passwords of at most 71 bytes with no zero byte. bcrypt keys Blowfish with the password and a zero byte cut to 72 bytes, so a longer password also logs in with anything that shares its first 72 bytes (Users.SeventyTwoByteCut).
- The random nonce, the new uuids, the bcrypt salt and the clock are parameters, because they are nondeterministic. Each service call reads the clock once, where the source reads it at each step.
- Concurrency, transactions and connection I/O are not modelled. The same goes for the CREATE TABLE of `__Migrations`, ReadDir, and the errors of QueryRow and of the record INSERT.
- Store errors are not modelled, apart from the duplicate key on insert and the missing row on read-back. The in-memory tables cannot fail on the claimed and expired inserts or on Delete.
- The debug print of the nonce at internal/app/entries.go:105 is left out; it is output only.
- `path.Join` of the migrations directory is left out; files are a map from name to contents.
- SendEntry is a no-op in the source, and its model does nothing.
- mysqlUUID is not part of this model. Neither are the users and refresh-token SQL repositories, the Update and Delete of UserRepository, the HTTP API, the CLI and the client.
- Migrations.SortStrings: only the unique sorted permutation is modelled, not the algorithm of sort.Strings.
- The migration splitter works on characters, where the source slices bytes. The two agree on ASCII scripts, but the one-character advance at internal/mysql/db.go:310 can split a multi-byte first character of the delimiter.
- GoStrings.LessEq compares code points, which orders strings as Go's byte-wise comparison of their UTF-8 forms does.
- The `len(sql) <= index` guards at internal/mysql/db.go:307-309 and 327-329 are unreachable: the index is a found position inside the string. The model has no branch for them.
- EntryStore.OrderByCreated: entries with equal createdAtUtc stay in table order. `ORDER BY createdAtUtc` leaves the order of ties unspecified, and ListSpec and EntryService.FindByUserID inherit this one choice.
- RunFromRecorded: a migration counts as recorded only when a recorded name is exactly equal to it. At internal/mysql/db.go:269 the database decides with `WHERE Name = ?`, which compares under the column's collation; no collation is set at db.go:211 or 239-245, and MySQL's default one ignores case and accents. So with `A.sql` and `a.sql` the source runs one and skips the other, while the model runs both. Migrations.RunFrom, RunFromRecords, RunTwice and Migrations.Pending use the same exact test.
- RunMigrations: Migrations.MigrationDb.RunMigrations and ApplyMigrations use RunFrom's exact-equality skip test in place of the collation-dependent lookup at internal/mysql/db.go:269, as the line above describes.
- FindByEmailAddress: Users.UserStore.FindByEmailAddress, and Users.FindByEmail behind it, match the email exactly. The SQL repository they stand for queries `WHERE Email = ?` under the database's collation, so emails that differ only in case may match there.
- The model's tables keep entries, claimed and expired records in insertion order. The claimed and expired tables have no key constraint.

## Findings

| source | as written | input that shows it | evidently intended | confidence | as-written member | corrected member |
|---|---|---|---|---|---|---|
| internal/mysql/db.go:310 | after a statement, the script resumes one character past the delimiter's start, whatever the delimiter's length | `delimiter $$`, newline, `A$$`: `A` is executed, then `$` is left, so the migration fails with "unexpected end of migration" | resume after the whole delimiter, so that the script is one complete statement | high; not executed | Migrations.OneCharacterRejectsDirectiveScript, Migrations.DollarScript, Migrations.OneCharacterKeepsDelimiterTail | Migrations.WholeDelimiterAcceptsDirectiveScript, Migrations.WholeDelimiterResumesAfterIt |
