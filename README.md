# Envelope encryption of contact-form PII

A model of the core of a FastAPI proof of concept. It stores contact-form
submissions in MySQL under field-level AES-256-GCM encryption. The data
encryption key (DEK) is itself wrapped by HashiCorp Vault's transit engine.

- One active DEK for the logical name `contact_pii` lives in
  `encryption_keys`, wrapped by Vault.
- `POST /submit` seals each of the five PII fields under that DEK. The
  field name (`"first_name"`, not the column `first_name_enc`) is the
  associated data. The row references the key by id.
- Each sealed field is 28 bytes longer than its UTF-8 text. It must fit a
  `VARBINARY(512)` column; MySQL in its default strict mode refuses a wider
  one, and the submission then fails with nothing stored.
- `GET /etl/records` joins each record to its own key row, has Vault unwrap
  the DEK, and decrypts every field.
- When Vault has lost its key material (a dev-mode restart), unwrapping
  answers HTTP 400. Both endpoints then purge every record and every key,
  create a fresh DEK and carry on.

The project is split into these files:

- `wrappers.dfy`: `Option`, `Result`, `Outcome`, the byte type, and the
  exceptions that cross the core.
- `utf8.dfy`: the strict UTF-8 codec behind `str.encode`/`bytes.decode`.
- `base64.dfy`: the base64 of RFC 4648, section 4.
- `crypto_utils.dfy`: AES-GCM and the Vault wrappers, modelled
  symbolically.
  - Each AEAD output octet records the key, nonce, plaintext, associated
    data and position it came from. Authentication succeeds exactly on an
    unaltered output.
  - A Vault token records the key generation it was sealed under.
- `store.dfy`: the two tables as a `Database` class. Its methods insert and
  delete rows under the foreign key.
- `etl.dfy`: the decryption pipeline.
- `main.dfy`: the key lifecycle, the two endpoints and the start-up probes.
  - The ghost invariant `App.Inv` says every key row wraps a 32-byte DEK.
  - It also says every record decrypts, under its own key's DEK, to the form
    it was submitted from.
  - It also says at most one key is active.

Randomness, the network and the database connection are parameters:

- `freshDek` stands for the output of `secrets.token_bytes(32)`.
- `nonces` stands for the `os.urandom(12)` draws, one per field. A missing
  middle name draws none, so its entry goes unused.
- `Kms` is the current state of the Vault transit key: its key generation,
  plus an outage status that every request meets.
- `probe` and `connects` are the outcomes of the successive health checks
  and connection attempts.

## Model

| member | source | states |
|---|---|---|
| CryptoUtils.AesGcmEncrypt | app/crypto_utils.py:9-14 | Fails with InvalidKeyLength exactly when the key is not 128, 192 or 256 bits; otherwise the blob is 12 + plaintext + 16 bytes, its first 12 bytes are the nonce and the rest is the AEAD output |
| CryptoUtils.AesGcmDecrypt | app/crypto_utils.py:17-21 | A bad key is refused first; a blob shorter than 8 bytes is a bad nonce; a blob too short to hold nonce and tag fails authentication |
| CryptoUtils.DecryptEncrypt | app/crypto_utils.py:9-21 | Splitting at byte 12 and decrypting with the same key and associated data returns the plaintext that was encrypted |
| CryptoUtils.DecryptWrongContext | app/crypto_utils.py:17-21 | A different key or different associated data makes decryption of an encrypted blob fail |
| CryptoUtils.DecryptTampered | app/crypto_utils.py:17-21 | Changing any one octet of an encrypted blob, nonce or ciphertext or tag, makes decryption fail |
| CryptoUtils.VaultEncryptKey | app/crypto_utils.py:24-31 | Succeeds exactly when Vault answers 2xx; otherwise raises the HTTP error with Vault's status; the token belongs to Vault's current key generation |
| CryptoUtils.VaultDecryptKey | app/crypto_utils.py:34-42 | Raises the HTTP error of an unavailable Vault; raises HTTP 400 for a token from an earlier key generation |
| CryptoUtils.UnwrapWrap | app/crypto_utils.py:24-42 | Unwrapping a key Vault has just wrapped gives back the same DEK bytes (base64 round trip through Vault) |
| CryptoUtils.UnwrapAfterLoss | app/crypto_utils.py:34-42 | After Vault loses its key material, every earlier token is answered with HTTP 400 |
| CryptoUtils.Lose | app/main.py:229 | After a loss of key material, Vault's key generation is later than the current one, and the outage state is kept |
| Base64.DecodeEncode | app/crypto_utils.py:27 | `b64decode(b64encode(b)) == b` for every byte string |
| Base64.Encode | app/crypto_utils.py:27 | The encoding is 4 characters per started group of 3 bytes |
| Base64.Decode | app/crypto_utils.py:42 | Fails only with binascii.Error; a decoded string has a length that is a multiple of 4 and gives 3 bytes per 4 characters, less the padding |
| Base64.OctetsSextets | app/crypto_utils.py:42 | Regrouping the 6-bit values of any byte string into bytes gives the bytes back, including the 1- and 2-byte final groups |
| Base64.ValuesChars | app/crypto_utils.py:42 | Reading back the alphabet symbols of 6-bit values gives the values back |
| Base64.PadCountPadded | app/crypto_utils.py:42 | The decoder counts exactly the padding the encoder appended and leaves the body intact |
| Utf8.DecodeEncode | app/etl.py:11-12 | `s.encode("utf-8").decode("utf-8") == s` for every string |
| Utf8.DecodeEncodeChar | app/etl.py:12 | Decoding the encoding of one character, followed by anything, yields that character and its encoded length |
| Utf8.EncodeInjective | app/main.py:168 | Distinct field names have distinct UTF-8 encodings, so they are distinct associated data |
| Utf8.Encode | app/main.py:168 | `str.encode("utf-8")` takes 1 to 4 bytes per character (so it is empty only for the empty string), and exactly 4 per character beyond U+FFFF |
| Utf8.Decode | app/etl.py:12 | On success, the decoded string has between a quarter of and as many characters as there are bytes; otherwise raises UnicodeDecodeError |
| KeyStore.NewestActive | app/main.py:135-144 | The row `ORDER BY created_at DESC LIMIT 1` picks: none exactly when no key is active, otherwise an active key with the greatest created_at |
| KeyStore.KeyIndex | app/db.py:48 | Finds the key row with the given primary key, or shows that none has it |
| KeyStore.NewestActiveIsLast | app/main.py:135-144 | In a table ordered by created_at, the newest active key is the last active row |
| KeyStore.AppendToNoActive | app/main.py:116-125 | A key inserted when no key is active is then the only active key |
| KeyStore.AppendKey | app/db.py:22-33 | Inserting a key with the next AUTO_INCREMENT id and timestamp keeps both tables ordered and keeps the foreign key intact |
| KeyStore.AppendRecord | app/db.py:35-51 | Inserting a record with the next id and timestamp that names an existing key keeps the tables consistent |
| KeyStore.Database.constructor | app/db.py:18-55 | The freshly created schema has two empty tables |
| KeyStore.Database.InsertKey | app/main.py:119-126 | Appends one active key row with the next id and the current timestamp; nothing else changes but the counters |
| KeyStore.Database.InsertRecord | app/main.py:178-193 | Succeeds exactly when every blob fits `VARBINARY(512)` (app/db.py:39-43) and key_id names a key; appends exactly the given row with the next id; a blob too wide raises DataError and changes nothing; a missing key raises IntegrityError (FOREIGN KEY at app/db.py:48), storing nothing but spending the AUTO_INCREMENT id |
| KeyStore.Database.DeleteAllRecords | app/main.py:232 | Empties contact_form and leaves the keys and counters alone |
| KeyStore.Database.DeleteAllKeys | app/main.py:233 | Empties encryption_keys exactly when contact_form is empty (every record references a key); otherwise raises IntegrityError and changes nothing |
| Etl.DecryptField | app/etl.py:8-12 | NULL stays None; a decrypted value is never None; success requires authenticated decryption under the field name; a bad DEK raises InvalidKeyLength; every failure is a crypto or UTF-8 error |
| Etl.Assemble | app/etl.py:53-64 | The dict literal succeeds exactly when all five fields do, and then holds them with the row's id, flags and created_at; otherwise it raises the first failing field's error in evaluation order |
| Etl.DecryptFields | app/etl.py:55-63 | A decrypted record keeps the row's id, created_at and both flags, has all four mandatory fields, and has a middle name exactly when the row has one |
| Etl.DecryptRow | app/etl.py:43-63 | Each row unwraps its own key; an unavailable Vault or a stale token fails the row with the HTTP error; on success the fields are decrypted under that key's DEK |
| Etl.JoinRows | app/etl.py:33-35 | Each joined row carries the wrapped DEK of the key its record references |
| Etl.Collect | app/etl.py:42-66 | The loop either returns one value per row in order, or stops with an error |
| Etl.DecryptRecords | app/etl.py:15-66 | The loop returns exactly the whole-batch result: every row decrypted in join order, or the first failing row's error |
| Etl.CollectStep | app/etl.py:43-65 | One more loop turn either appends the row's record or ends with the row's error |
| Etl.CollectPrefixFailure | app/etl.py:43-65 | Once a row has failed, later rows do not change the outcome |
| Etl.CollectSucceeds | app/etl.py:43-65 | The loop succeeds exactly when every row does |
| Etl.CollectFirstError | app/etl.py:43-65 | The loop raises the error of the first failing row |
| Etl.DecryptAllFirstError | app/etl.py:43-65 | A failing row aborts the whole batch with its error; no partial list is returned |
| Etl.DecryptAllSucceeds | app/etl.py:43-65 | The batch succeeds exactly when every row decrypts, and then holds each row's record at that row's position |
| Etl.DecryptAllOutage | app/etl.py:47-52 | While Vault fails every request, an empty table yields [] and any other table fails with Vault's status |
| Etl.JoinComplete | app/etl.py:33-35 | Under the foreign key the inner join loses no record: the k-th joined row is the k-th record with its own key's wrapped DEK |
| Etl.JoinBelow | app/etl.py:33-35 | The join introduces no record id beyond those of the table |
| Etl.JoinAscending | app/etl.py:35 | The output is ordered by ascending record id |
| Etl.DecryptAllCopies | app/etl.py:55-63 | A successful batch has one record per stored row, copying its id, created_at and both flags, in order |
| App.EncryptField | app/main.py:165-168 | None stays None; a value is sealed exactly when the DEK has a valid length, and then the blob is nonce, ciphertext and tag; otherwise raises InvalidKeyLength |
| App.EncryptForm | app/main.py:170-174 | The five fields are sealed exactly when the DEK is valid; a missing middle name is stored as NULL and a present one is sealed; the sealed fields fit their `VARBINARY(512)` columns (app/db.py:39-43) exactly when every present field's UTF-8 text is at most 484 bytes |
| App.FieldWidth | app/main.py:31-35 | Against the `VARBINARY(512)` width (app/db.py:39-43): a field of up to 121 characters always fits once sealed, while 122 or more characters beyond U+FFFF never fit, although they pass the 128-character limit of ContactForm |
| App.FieldRoundTrip | app/main.py:165-168 | `_decrypt_field` under the same DEK and label undoes `encrypt_field`, None included (app/etl.py:8-12) |
| App.FieldWrongName | app/main.py:168 | A field sealed under one field name (its associated data) does not decrypt under another |
| App.FieldWrongKey | app/main.py:168 | A field sealed under one DEK does not decrypt under another |
| App.FormRoundTrip | app/main.py:170-191 | A stored submission decrypts to exactly the submitted values, with a missing middle name staying None |
| App.EnvelopeAddKey | app/main.py:116-126 | A newly wrapped DEK under a fresh id leaves every existing key and record decryptable as before |
| App.EnvelopeAddRecord | app/main.py:176-193 | A newly sealed record with a fresh id keeps every record decryptable to its form |
| App.UnwrapStored | app/main.py:152 | A stored key that Vault can decrypt right now unwraps to the DEK it was created with |
| App.EnsureActiveDek | app/main.py:103-129 | With an active key, nothing changes; otherwise one active key row wrapping the new DEK is appended (or Vault's error is raised and nothing changes); afterwards a key is active, at most one is, and records are untouched |
| App.HandleStaleKeys | app/main.py:228-237 | Deletes every record, then every key (records first, so the foreign key cannot object), then leaves exactly one fresh active key, or none if Vault refuses to wrap |
| App.Attempt | app/main.py:132-158 | No active row raises the unpacking TypeError; an unavailable Vault raises its status; a token of an earlier generation raises 400; success yields the newest active key's id |
| App.AttemptCurrent | app/main.py:148-158 | For a sealed newest key, the read succeeds exactly when Vault can unwrap its token, and then yields that key's id and DEK |
| App.GetActiveDek | app/main.py:132-158 | Returns the id and DEK of the newest active key; a non-400 error propagates with the store unchanged; a 400 purges both tables and returns the freshly created key, recursing at most once |
| App.IsSubmission | app/main.py:170-191 | A row is a submission of a form exactly when it holds the sealed fields, both flags and the key id that submit_form inserts |
| App.SubmissionContents | app/main.py:170-191 | A submitted row references its key, keeps both flags, is NULL exactly for a missing middle name, and decrypts to the submitted form |
| App.StoreSubmission | app/main.py:165-195 | Succeeds exactly when every sealed field fits its column: it then appends one row, numbered with the next id, holding the form sealed under the newest active key and referencing it, with keys untouched; otherwise MySQL's DataError propagates and nothing changes; the envelope invariant is kept either way |
| App.SubmitForm | app/main.py:161-197 | An error other than 400 propagates with nothing stored; otherwise (after a purge and a fresh key when Vault answered 400) exactly one row sealed under the newest active key is appended when every sealed field fits its column, and DataError is raised with no row stored when one does not |
| App.Expected | app/etl.py:53-65 | One plaintext record per stored row, built from the form it was submitted from |
| App.DecryptAllEnvelope | app/etl.py:15-66 | When Vault can unwrap every stored key, decrypt_records returns every submitted form, one per record, in table order |
| App.GetEtlRecords | app/main.py:215-225 | A successful decryption, or a non-HTTP error, is returned unchanged; an HTTP error other than 400 becomes a 500; a 400 purges the store, leaves exactly the fresh active key (or no key when Vault refuses to wrap it) and yields []; with every key unwrappable the result is every submitted form |
| App.WaitForVault | app/main.py:77-89 | Returns at the first probe answering 200, 429, 472, 473 or 499, within max_attempts probes; raises "Vault not ready" exactly when none of the max_attempts probes did |
| App.WaitForMysql | app/main.py:92-100 | Returns at the first connection that succeeds, within max_attempts tries; raises "MySQL not ready" exactly when none did |

## Left out

- Routing and presentation are left out: FastAPI routing, the HTML pages, the root endpoint and the JSON wrapping of the response. The model returns the record list itself.
- The pydantic validation of ContactForm is left out (its lengths and the e-mail syntax). The model accepts any string of Unicode scalar values. Python strings can also hold a lone surrogate, on which `.encode("utf-8")` raises UnicodeEncodeError (app/main.py:168); a Dafny `string` cannot hold one, so that failure is not modelled.
- `_bootstrap_vault_transit` and `startup_event` are left out: one-time set-up of the transit mount and key, outside the key lifecycle.
- `run_etl` is left out: it only prints the records `decrypt_records` returns.
- Connections, commits, cursors, `init_schema`'s DDL and `config.get_settings` are left out. The tables, the foreign key and the AUTO_INCREMENT counters that a DELETE does not reset are modelled; connections and settings are not.
- HTTP details are left out: requests, timeouts, headers and the JSON bodies of Vault's replies. `Kms` stands for the transit key's state, and `TransitEncrypt`/`TransitDecrypt` stand for the two replies.
- `time.sleep` is left out: a wait between probes changes nothing the model observes.
- Randomness is left out: `secrets.token_bytes` and `os.urandom` are parameters.
- Wall-clock time is left out: `created_at` is a counter shared by both tables that grows with every insertion. `isoformat()` is not modelled.
- AES-GCM itself is left out (the block cipher, GHASH and bit-level tags). It is modelled symbolically: an AEAD output cannot be forged or altered undetected. Forging with probability 2^-128 is not modelled.
- `GetEtlRecords` and `GetActiveDek` ignore `exc.response is not None` (app/main.py:154, app/main.py:220): `raise_for_status` always attaches its response.
- Concurrency is left out: the model runs one request at a time. With concurrent requests, two `_ensure_active_dek` calls could both insert a key. `AtMostOneActive` holds only for sequential runs.
- The bytes-to-str decode of `dek_wrapped` (app/main.py:149-150, app/etl.py:45-46) is left out. The model stores Vault's ciphertext as a `WrappedKey`: the key generation it was sealed under, and the base64 plaintext it seals. It is never held as bytes.
- Base64.Decode: decodes only the canonical RFC 4648 alphabet with correct padding. It raises Base64Error on anything else, whereas Python's lax `b64decode` discards characters outside the alphabet. Vault always returns canonical base64, so the round trip through Vault is unaffected.
- App.GetActiveDek: the source retries by unbounded recursion after each purge. The model proves the recursion happens at most once, because the retry meets a key the same Vault has just wrapped. A Vault that lost its key material again between the two calls (a concurrent restart) is not modelled.
- KeyStore.NewestActive: breaks `created_at` ties by taking the later row. MySQL leaves the order of ties unspecified. Under the model's strictly growing clock there are no ties.
- KeyStore.Database.InsertRecord: models MySQL's default strict SQL mode. In non-strict mode MySQL would instead cut an over-wide blob to 512 bytes and store the row; every later decryption of that row would fail with InvalidTag, which is not an HTTP error, so no purge would follow. That mode is not modelled.
