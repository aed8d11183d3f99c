/**
 * The envelope-encryption key lifecycle and the two endpoints built on it
 * (app/main.py). One active data encryption key (DEK) for the logical name
 * "contact_pii" is kept in `encryption_keys`, wrapped by Vault; each
 * submission is sealed field by field under it; when Vault can no longer
 * unwrap the stored key (HTTP 400 after it lost its key material), every
 * record and every key is purged and a fresh key is created.
 *
 * The ghost invariant `Inv` states what makes the scheme sound: each key row
 * wraps a 32-byte DEK, and each record decrypts, under its own key's DEK, to
 * the form it was submitted from.
 */
module App {
  import opened Wrappers
  import opened Binary
  import opened Exceptions
  import opened CryptoUtils
  import opened KeyStore
  import opened Etl
  import Base64
  import Utf8

  const LOGICAL_NAME: string := "contact_pii"
  const KEK_ID: string := "vault-transit:pii-master"
  /** `secrets.token_bytes(32)`: the DEK is 256 bits. */
  const DEK_LEN: nat := 32

  // ---------------------------------------------------------------------
  // Sealing a submission

  /** One random 12-byte nonce per field, in the order submit_form encrypts them. */
  predicate ValidNonces(nonces: seq<Bytes>) {
    |nonces| == 5 && forall k :: 0 <= k < |nonces| ==> |nonces[k]| == NONCE_LEN
  }

  /** `encrypt_field`: None stays None; a value is sealed with its field name as associated data. */
  function EncryptField(dek: Bytes, value: Option<string>, field: string, nonce: Bytes): (r: Result<Option<Blob>, Error>)
    requires |nonce| == NONCE_LEN
    ensures value.None? ==> r == Success(None)
    ensures value.Some? ==> (r.Success? <==> ValidKeyLength(dek))
    ensures value.Some? && r.Failure? ==> r.error == InvalidKeyLength
    ensures value.Some? && r.Success? ==> r.value.Some? && |r.value.value| == NONCE_LEN + |Utf8.Encode(value.value)| + TAG_LEN
  {
    match value
    case None => Success(None)
    case Some(v) =>
      var blob :- AesGcmEncrypt(dek, Utf8.Encode(v), Utf8.Encode(field), nonce);
      Success(Some(blob))
  }

  /** A value, once sealed (nonce, UTF-8 bytes, tag), fits a `VARBINARY(512)` column. */
  predicate FieldFits(v: string) {
    NONCE_LEN + |Utf8.Encode(v)| + TAG_LEN <= BLOB_WIDTH
  }

  /** Every present field of the form fits its column once sealed. */
  predicate FormFits(form: ContactForm) {
    FieldFits(form.firstName) && (form.middleName.None? || FieldFits(form.middleName.value)) &&
    FieldFits(form.lastName) && FieldFits(form.phone) && FieldFits(form.email)
  }

  /**
   * Field width in characters: up to 121 characters always fit, whatever
   * they are; 122 characters beyond U+FFFF never do, although they pass a
   * 128-character length limit.
   */
  lemma FieldWidth(v: string)
    ensures |v| <= 121 ==> FieldFits(v)
    ensures |v| >= 122 && (forall i :: 0 <= i < |v| ==> v[i] as int >= 0x10000) ==> !FieldFits(v)
  {
  }

  /** The five encrypted columns of a submission. */
  datatype EncryptedFields = EncryptedFields(first: Blob, middle: Option<Blob>, last: Blob, phone: Blob, email: Blob)

  /** The five `encrypt_field` calls of submit_form, each with its field name as associated data. */
  function EncryptForm(dek: Bytes, form: ContactForm, nonces: seq<Bytes>): (r: Result<EncryptedFields, Error>)
    requires ValidNonces(nonces)
    ensures r.Success? <==> ValidKeyLength(dek)
    ensures r.Failure? ==> r.error == InvalidKeyLength
    ensures r.Success? ==> (r.value.middle.None? <==> form.middleName.None?)
    ensures r.Success? ==> (ColumnsFit(r.value.first, r.value.middle, r.value.last, r.value.phone, r.value.email)
                            <==> FormFits(form))
  {
    // AESGCM(dek) refuses a bad key on the first field; with a good key no field fails.
    if !ValidKeyLength(dek) then Failure(InvalidKeyLength)
    else
      Success(EncryptedFields(
        EncryptField(dek, Some(form.firstName), FIRST_NAME, nonces[0]).value.value,
        EncryptField(dek, form.middleName, MIDDLE_NAME, nonces[1]).value,
        EncryptField(dek, Some(form.lastName), LAST_NAME, nonces[2]).value.value,
        EncryptField(dek, Some(form.phone), PHONE, nonces[3]).value.value,
        EncryptField(dek, Some(form.email), EMAIL, nonces[4]).value.value))
  }

  /** The `contact_form` row submit_form inserts: the encrypted columns, the flags unchanged, the key id. */
  function StoredRow(e: EncryptedFields, form: ContactForm, keyId: nat, id: nat, createdAt: nat): ContactRow {
    ContactRow(id, e.first, e.middle, e.last, e.phone, e.email, form.phoneDnc, form.emailDnc, keyId, createdAt)
  }

  /** What decrypt_records returns for a stored submission. */
  function Plain(form: ContactForm, id: nat, createdAt: nat): PlainRecord {
    PlainRecord(id, Some(form.firstName), form.middleName, Some(form.lastName), Some(form.phone), Some(form.email),
                form.phoneDnc, form.emailDnc, createdAt)
  }

  /** `_decrypt_field` undoes `encrypt_field` when both use the same key and field name. */
  lemma FieldRoundTrip(dek: Bytes, value: Option<string>, field: string, nonce: Bytes)
    requires |nonce| == NONCE_LEN && ValidKeyLength(dek)
    ensures EncryptField(dek, value, field, nonce).Success?
    ensures DecryptField(dek, EncryptField(dek, value, field, nonce).value, field) == Success(value)
  {
    if value.Some? {
      DecryptEncrypt(dek, Utf8.Encode(value.value), Utf8.Encode(field), nonce);
      Utf8.DecodeEncode(value.value);
    }
  }

  /** A field sealed under one field name does not open under another. */
  lemma FieldWrongName(dek: Bytes, value: string, field: string, other: string, nonce: Bytes)
    requires |nonce| == NONCE_LEN && ValidKeyLength(dek) && field != other
    ensures DecryptField(dek, EncryptField(dek, Some(value), field, nonce).value, other).Failure?
  {
    if Utf8.Encode(field) == Utf8.Encode(other) {
      Utf8.EncodeInjective(field, other);
    }
    DecryptWrongContext(dek, Utf8.Encode(value), Utf8.Encode(field), nonce, dek, Utf8.Encode(other));
  }

  /** A field sealed under one DEK does not open under another. */
  lemma FieldWrongKey(dek: Bytes, value: string, field: string, nonce: Bytes, other: Bytes)
    requires |nonce| == NONCE_LEN && ValidKeyLength(dek) && other != dek
    ensures DecryptField(other, EncryptField(dek, Some(value), field, nonce).value, field).Failure?
  {
    DecryptWrongContext(dek, Utf8.Encode(value), Utf8.Encode(field), nonce, other, Utf8.Encode(field));
  }

  /** A stored submission decrypts to exactly the submitted values, a missing middle name staying None. */
  lemma FormRoundTrip(dek: Bytes, form: ContactForm, nonces: seq<Bytes>, keyId: nat, id: nat, createdAt: nat)
    requires ValidNonces(nonces) && ValidKeyLength(dek)
    ensures EncryptForm(dek, form, nonces).Success?
    ensures DecryptFields(StoredRow(EncryptForm(dek, form, nonces).value, form, keyId, id, createdAt), dek)
            == Success(Plain(form, id, createdAt))
  {
    FieldRoundTrip(dek, Some(form.firstName), FIRST_NAME, nonces[0]);
    FieldRoundTrip(dek, form.middleName, MIDDLE_NAME, nonces[1]);
    FieldRoundTrip(dek, Some(form.lastName), LAST_NAME, nonces[2]);
    FieldRoundTrip(dek, Some(form.phone), PHONE, nonces[3]);
    FieldRoundTrip(dek, Some(form.email), EMAIL, nonces[4]);
  }

  // ---------------------------------------------------------------------
  // The envelope invariant

  /** A key row wraps, as base64, the 32-byte DEK recorded for its id. */
  ghost predicate KeySealed(k: KeyRow, deks: map<nat, Bytes>) {
    k.id in deks && |deks[k.id]| == DEK_LEN && k.dekWrapped.plaintext == Base64.Encode(deks[k.id])
  }

  /** A record decrypts, under the DEK of the key it references, to the form it was submitted from. */
  ghost predicate RecordSealed(row: ContactRow, deks: map<nat, Bytes>, forms: map<nat, ContactForm>) {
    row.keyId in deks && row.id in forms && |deks[row.keyId]| == DEK_LEN &&
    DecryptFields(row, deks[row.keyId]) == Success(Plain(forms[row.id], row.id, row.createdAt))
  }

  ghost predicate Envelope(keys: seq<KeyRow>, records: seq<ContactRow>, deks: map<nat, Bytes>, forms: map<nat, ContactForm>) {
    (forall i :: 0 <= i < |keys| ==> KeySealed(keys[i], deks)) &&
    (forall i :: 0 <= i < |records| ==> RecordSealed(records[i], deks, forms))
  }

  /** The store's own invariant, the envelope invariant, and at most one active key. */
  ghost predicate Inv(db: Database)
    reads db
  {
    db.Valid() && Envelope(db.keys, db.records, db.deks, db.forms) && AtMostOneActive(db.keys, LOGICAL_NAME)
  }

  /** A DEK recorded for a fresh id leaves every existing key and record sealed as before. */
  lemma EnvelopeAddKey(keys: seq<KeyRow>, records: seq<ContactRow>, deks: map<nat, Bytes>, forms: map<nat, ContactForm>,
                       k: KeyRow, dek: Bytes)
    requires Envelope(keys, records, deks, forms) && ForeignKey(records, keys)
    requires forall i :: 0 <= i < |keys| ==> keys[i].id < k.id
    requires KeySealed(k, deks[k.id := dek])
    ensures Envelope(keys + [k], records, deks[k.id := dek], forms)
  {
    var deks' := deks[k.id := dek];
    forall i | 0 <= i < |records|
      ensures RecordSealed(records[i], deks', forms)
    {
      var j := KeyIndex(keys, records[i].keyId).value;
      assert records[i].keyId < k.id;
    }
    forall i | 0 <= i < |keys + [k]|
      ensures KeySealed((keys + [k])[i], deks')
    {
      if i < |keys| {
        assert (keys + [k])[i] == keys[i];
      }
    }
  }

  /** A record with a fresh id, sealed under its key's DEK, keeps the envelope invariant. */
  lemma EnvelopeAddRecord(keys: seq<KeyRow>, records: seq<ContactRow>, deks: map<nat, Bytes>, forms: map<nat, ContactForm>,
                          row: ContactRow, form: ContactForm)
    requires Envelope(keys, records, deks, forms)
    requires forall i :: 0 <= i < |records| ==> records[i].id < row.id
    requires RecordSealed(row, deks, forms[row.id := form])
    ensures Envelope(keys, records + [row], deks, forms[row.id := form])
  {
    var forms' := forms[row.id := form];
    forall i | 0 <= i < |records + [row]|
      ensures RecordSealed((records + [row])[i], deks, forms')
    {
      if i < |records| {
        assert (records + [row])[i] == records[i];
        assert records[i].id != row.id;
      }
    }
  }

  /** A stored key that Vault can decrypt right now unwraps to its recorded DEK. */
  lemma UnwrapStored(k: KeyRow, deks: map<nat, Bytes>, kms: Kms)
    requires KeySealed(k, deks) && Unwrappable(kms, k.dekWrapped)
    ensures VaultDecryptKey(kms, k.dekWrapped) == Success(deks[k.id])
  {
    Base64.DecodeEncode(deks[k.id]);
  }

  // ---------------------------------------------------------------------
  // The key lifecycle

  /** `_ensure_active_dek`: wrap and insert a new active DEK only when no active key exists. */
  method EnsureActiveDek(db: Database, kms: Kms, dek: Bytes) returns (r: Outcome<Error>)
    requires Inv(db) && |dek| == DEK_LEN
    modifies db
    ensures Inv(db)
    ensures db.records == old(db.records) && db.nextRecordId == old(db.nextRecordId)
    ensures HasActive(old(db.keys), LOGICAL_NAME) ==> r == Pass && unchanged(db)
    ensures !HasActive(old(db.keys), LOGICAL_NAME) && kms.outage.Some? ==>
              r == Fail(HttpError(kms.outage.value)) && unchanged(db)
    ensures !HasActive(old(db.keys), LOGICAL_NAME) && kms.outage.None? ==>
              r == Pass &&
              db.keys == old(db.keys) + [KeyRow(old(db.nextKeyId), LOGICAL_NAME, VaultEncryptKey(kms, dek).value,
                                               KEK_ID, old(db.clock), Active)] &&
              db.deks == old(db.deks)[old(db.nextKeyId) := dek]
    ensures r.Pass? ==> HasActive(db.keys, LOGICAL_NAME)
  {
    if HasActive(db.keys, LOGICAL_NAME) {
      return Pass;
    }
    var wrapped := VaultEncryptKey(kms, dek);
    if wrapped.Failure? {
      return Fail(wrapped.error);
    }
    var row := KeyRow(db.nextKeyId, LOGICAL_NAME, wrapped.value, KEK_ID, db.clock, Active);
    AppendToNoActive(db.keys, row, LOGICAL_NAME);
    EnvelopeAddKey(db.keys, db.records, db.deks, db.forms, row, dek);
    var id := db.InsertKey(LOGICAL_NAME, wrapped.value, KEK_ID, dek);
    r := Pass;
  }

  /** `_handle_stale_keys`: delete every record, then every key, then create a fresh active key. */
  method HandleStaleKeys(db: Database, kms: Kms, dek: Bytes) returns (r: Outcome<Error>)
    requires Inv(db) && |dek| == DEK_LEN
    modifies db
    ensures Inv(db)
    ensures db.records == [] && db.nextRecordId == old(db.nextRecordId)
    ensures kms.outage.None? ==>
              r == Pass &&
              db.keys == [KeyRow(old(db.nextKeyId), LOGICAL_NAME, VaultEncryptKey(kms, dek).value, KEK_ID, old(db.clock), Active)] &&
              db.deks == old(db.deks)[old(db.nextKeyId) := dek]
    ensures kms.outage.Some? ==> r == Fail(HttpError(kms.outage.value)) && db.keys == []
  {
    db.DeleteAllRecords();
    var deleted := db.DeleteAllKeys();
    // The records went first, so the foreign key has nothing to object to.
    assert deleted == Pass;
    r := EnsureActiveDek(db, kms, dek);
  }

  /** One pass of `_get_active_dek` before any recovery: read the newest active key and unwrap it. */
  function Attempt(keys: seq<KeyRow>, kms: Kms): (r: Result<(nat, Bytes), Error>)
    ensures !HasActive(keys, LOGICAL_NAME) ==> r == Failure(RowUnpackError)
    ensures HasActive(keys, LOGICAL_NAME) && kms.outage.Some? ==> r == Failure(HttpError(kms.outage.value))
    ensures HasActive(keys, LOGICAL_NAME) && kms.outage.None? &&
            keys[NewestActive(keys, LOGICAL_NAME).value].dekWrapped.generation != kms.generation ==>
              r == Failure(HttpError(400))
    ensures r.Success? ==> HasActive(keys, LOGICAL_NAME) &&
                           Unwrappable(kms, keys[NewestActive(keys, LOGICAL_NAME).value].dekWrapped) &&
                           r.value.0 == keys[NewestActive(keys, LOGICAL_NAME).value].id
  {
    match NewestActive(keys, LOGICAL_NAME)
    case None => Failure(RowUnpackError)
    case Some(i) =>
      var dek :- VaultDecryptKey(kms, keys[i].dekWrapped);
      Success((keys[i].id, dek))
  }

  /** When the newest active key is sealed, a pass succeeds exactly when Vault can unwrap it, and yields its DEK. */
  lemma AttemptCurrent(keys: seq<KeyRow>, deks: map<nat, Bytes>, kms: Kms)
    requires HasActive(keys, LOGICAL_NAME)
    requires KeySealed(keys[NewestActive(keys, LOGICAL_NAME).value], deks)
    ensures var k := keys[NewestActive(keys, LOGICAL_NAME).value];
            Attempt(keys, kms).Success? <==> Unwrappable(kms, k.dekWrapped)
    ensures var k := keys[NewestActive(keys, LOGICAL_NAME).value];
            Unwrappable(kms, k.dekWrapped) ==> Attempt(keys, kms) == Success((k.id, deks[k.id]))
  {
    var i := NewestActive(keys, LOGICAL_NAME).value;
    var k := keys[i];
    if Unwrappable(kms, k.dekWrapped) {
      UnwrapStored(k, deks, kms);
      assert Attempt(keys, kms) == Success((k.id, deks[k.id]));
    } else {
      assert Attempt(keys, kms).Failure?;
    }
  }

  /**
   * `_get_active_dek`: the id and DEK of the newest active key. A 400 from
   * Vault purges the store and retries; the retry meets the key just wrapped
   * by the same Vault, so it recurses at most once. Any other error, and the
   * TypeError of a missing row, propagate with the store unchanged.
   */
  method GetActiveDek(db: Database, kms: Kms, freshDek: Bytes) returns (r: Result<(nat, Bytes), Error>)
    requires Inv(db) && |freshDek| == DEK_LEN
    modifies db
    ensures Inv(db)
    ensures db.nextRecordId == old(db.nextRecordId)
    ensures old(Attempt(db.keys, kms)) != Failure(HttpError(400)) ==> r == old(Attempt(db.keys, kms)) && unchanged(db)
    ensures old(Attempt(db.keys, kms)) == Failure(HttpError(400)) ==>
              db.records == [] &&
              (kms.outage.None? ==>
                 r == Success((old(db.nextKeyId), freshDek)) &&
                 db.keys == [KeyRow(old(db.nextKeyId), LOGICAL_NAME, VaultEncryptKey(kms, freshDek).value, KEK_ID,
                                    old(db.clock), Active)]) &&
              (kms.outage.Some? ==> r == Failure(HttpError(400)) && db.keys == [])
    ensures r.Success? ==> HasActive(db.keys, LOGICAL_NAME) &&
                           r.value.0 == db.keys[NewestActive(db.keys, LOGICAL_NAME).value].id &&
                           r.value.0 in db.deks && r.value.1 == db.deks[r.value.0] && |r.value.1| == DEK_LEN
    decreases if Attempt(db.keys, kms) == Failure(HttpError(400)) then 1 else 0
  {
    var attempt := Attempt(db.keys, kms);
    if attempt != Failure(HttpError(400)) {
      if attempt.Success? {
        AttemptCurrent(db.keys, db.deks, kms);
      }
      return attempt;
    }
    var recovered := HandleStaleKeys(db, kms, freshDek);
    if recovered.Fail? {
      return Failure(recovered.error);
    }
    NewestActiveIsLast(db.keys, LOGICAL_NAME, 0);
    AttemptCurrent(db.keys, db.deks, kms);
    r := GetActiveDek(db, kms, freshDek);
  }

  // ---------------------------------------------------------------------
  // The endpoints

  /** `row` is `form` as submit_form inserts it: sealed with `nonces` under `dek`, referencing key `keyId`. */
  predicate IsSubmission(row: ContactRow, form: ContactForm, keyId: nat, dek: Bytes, nonces: seq<Bytes>)
    requires ValidNonces(nonces)
  {
    var e := EncryptForm(dek, form, nonces);
    e.Success? && row == StoredRow(e.value, form, keyId, row.id, row.createdAt)
  }

  /**
   * A submitted row references the key it was sealed under, keeps both flags,
   * stores NULL exactly for a missing middle name, and decrypts back to the form.
   */
  lemma SubmissionContents(row: ContactRow, form: ContactForm, keyId: nat, dek: Bytes, nonces: seq<Bytes>)
    requires ValidNonces(nonces) && IsSubmission(row, form, keyId, dek, nonces)
    ensures row.keyId == keyId && row.phoneDnc == form.phoneDnc && row.emailDnc == form.emailDnc
    ensures row.middleNameEnc.None? <==> form.middleName.None?
    ensures DecryptFields(row, dek) == Success(Plain(form, row.id, row.createdAt))
  {
    FormRoundTrip(dek, form, nonces, keyId, row.id, row.createdAt);
  }

  /**
   * The last record, numbered `id`, holds `form` sealed under the DEK of the
   * newest active key, which it references.
   */
  ghost predicate SubmittedUnderActive(db: Database, form: ContactForm, nonces: seq<Bytes>, id: nat)
    requires ValidNonces(nonces)
    reads db
  {
    |db.records| > 0 && HasActive(db.keys, LOGICAL_NAME) &&
    var row := db.records[|db.records| - 1];
    row.id == id && row.id in db.forms && db.forms[row.id] == form &&
    row.keyId == db.keys[NewestActive(db.keys, LOGICAL_NAME).value].id && row.keyId in db.deks &&
    IsSubmission(row, form, row.keyId, db.deks[row.keyId], nonces)
  }

  /**
   * The second half of POST /submit: seal the five fields under the DEK of
   * key `keyId` and insert the row that references it. MySQL refuses the
   * row, storing nothing, when a sealed field is wider than its column.
   */
  method StoreSubmission(db: Database, keyId: nat, dek: Bytes, form: ContactForm, nonces: seq<Bytes>)
    returns (r: Outcome<Error>)
    requires Inv(db) && ValidNonces(nonces)
    requires HasActive(db.keys, LOGICAL_NAME) && keyId == db.keys[NewestActive(db.keys, LOGICAL_NAME).value].id
    requires keyId in db.deks && dek == db.deks[keyId]
    modifies db
    ensures Inv(db)
    ensures r.Pass? <==> FormFits(form)
    ensures r.Fail? ==> r.error == DataError && unchanged(db)
    ensures r.Pass? ==> SubmittedUnderActive(db, form, nonces, old(db.nextRecordId))
    ensures r.Pass? ==> db.keys == old(db.keys) && db.deks == old(db.deks) &&
                        db.forms == old(db.forms)[old(db.nextRecordId) := form]
    ensures r.Pass? ==> |db.records| == |old(db.records)| + 1 && db.records[..|old(db.records)|] == old(db.records)
    ensures r.Pass? ==> db.records[|old(db.records)|].id == old(db.nextRecordId)
    ensures r.Pass? ==> IsSubmission(db.records[|old(db.records)|], form, keyId, dek, nonces)
    ensures r.Pass? ==> db.nextRecordId == old(db.nextRecordId) + 1
  {
    assert KeySealed(db.keys[NewestActive(db.keys, LOGICAL_NAME).value], db.deks);
    var encrypted := EncryptForm(dek, form, nonces);
    var e := encrypted.value;
    ghost var keys, records, deks, forms := db.keys, db.records, db.deks, db.forms;
    // The key was just read from the key table, so only the column width can object.
    assert KeyIndex(keys, keyId).Some?;
    var inserted := db.InsertRecord(e.first, e.middle, e.last, e.phone, e.email, form.phoneDnc, form.emailDnc, keyId, form);
    if inserted.Failure? {
      return Fail(DataError);
    }
    var row := StoredRow(e, form, keyId, inserted.value, old(db.clock));
    assert db.records == records + [row];
    FormRoundTrip(dek, form, nonces, keyId, row.id, row.createdAt);
    EnvelopeAddRecord(keys, records, deks, forms, row, form);
    assert db.records[..|records|] == records;
    r := Pass;
  }

  /**
   * POST /submit: obtain the active DEK, seal the five fields and append one
   * record that references the key.
   */
  method SubmitForm(db: Database, kms: Kms, form: ContactForm, freshDek: Bytes, nonces: seq<Bytes>)
    returns (r: Outcome<Error>)
    requires Inv(db) && |freshDek| == DEK_LEN && ValidNonces(nonces)
    modifies db
    ensures Inv(db)
    ensures old(Attempt(db.keys, kms)).Failure? && old(Attempt(db.keys, kms)) != Failure(HttpError(400)) ==>
              r == Fail(old(Attempt(db.keys, kms)).error) && unchanged(db)
    ensures old(Attempt(db.keys, kms)).Success? && !FormFits(form) ==> r == Fail(DataError) && unchanged(db)
    ensures old(Attempt(db.keys, kms)).Success? && FormFits(form) ==>
              r == Pass && db.keys == old(db.keys) &&
              |db.records| == |old(db.records)| + 1 && db.records[..|old(db.records)|] == old(db.records) &&
              IsSubmission(db.records[|old(db.records)|], form, old(Attempt(db.keys, kms)).value.0,
                           old(Attempt(db.keys, kms)).value.1, nonces)
    ensures old(Attempt(db.keys, kms)) == Failure(HttpError(400)) ==>
              (kms.outage.None? ==>
                 |db.keys| == 1 &&
                 (FormFits(form) ==> r == Pass && |db.records| == 1 &&
                                     IsSubmission(db.records[0], form, db.keys[0].id, freshDek, nonces)) &&
                 (!FormFits(form) ==> r == Fail(DataError) && db.records == [])) &&
              (kms.outage.Some? ==> r == Fail(HttpError(400)) && db.keys == [] && db.records == [])
    ensures r.Pass? ==> SubmittedUnderActive(db, form, nonces, old(db.nextRecordId))
  {
    ghost var attempt := Attempt(db.keys, kms);
    var active := GetActiveDek(db, kms, freshDek);
    if active.Failure? {
      return Fail(active.error);
    }
    var (keyId, dek) := active.value;
    r := StoreSubmission(db, keyId, dek, form, nonces);
  }

  /** The records decrypt_records is expected to return: every stored submission, in table order. */
  ghost function Expected(records: seq<ContactRow>, forms: map<nat, ContactForm>): (out: seq<PlainRecord>)
    requires forall i :: 0 <= i < |records| ==> records[i].id in forms
    ensures |out| == |records|
  {
    seq(|records|, k requires 0 <= k < |records| => Plain(forms[records[k].id], records[k].id, records[k].createdAt))
  }

  /**
   * With every stored key unwrappable, decrypt_records returns exactly the
   * submitted forms, one per record, in order.
   */
  lemma DecryptAllEnvelope(keys: seq<KeyRow>, records: seq<ContactRow>, deks: map<nat, Bytes>,
                           forms: map<nat, ContactForm>, kms: Kms)
    requires ForeignKey(records, keys) && Envelope(keys, records, deks, forms)
    requires forall i :: 0 <= i < |keys| ==> Unwrappable(kms, keys[i].dekWrapped)
    ensures DecryptAll(JoinRows(records, keys), kms) == Success(Expected(records, forms))
  {
    JoinComplete(records, keys);
    var rows := JoinRows(records, keys);
    var expected := Expected(records, forms);
    forall k | 0 <= k < |rows|
      ensures DecryptRow(rows[k], kms) == Success(expected[k])
    {
      var i := KeyIndex(keys, records[k].keyId).value;
      assert RecordSealed(records[k], deks, forms);
      UnwrapStored(keys[i], deks, kms);
    }
    DecryptAllSucceeds(rows, kms);
    var out := DecryptAll(rows, kms).value;
    assert forall k :: 0 <= k < |rows| ==> out[k] == expected[k];
    assert out == expected;
  }

  /**
   * GET /etl/records: decrypt every record; on a 400 purge the store and
   * decrypt once more, turning any other HTTP error into a 500.
   */
  method GetEtlRecords(db: Database, kms: Kms, freshDek: Bytes) returns (r: Result<seq<PlainRecord>, Error>)
    requires Inv(db) && |freshDek| == DEK_LEN
    modifies db
    ensures Inv(db)
    ensures old(DecryptAll(JoinRows(db.records, db.keys), kms)).Success? ==>
              r == old(DecryptAll(JoinRows(db.records, db.keys), kms)) && unchanged(db)
    ensures old(DecryptAll(JoinRows(db.records, db.keys), kms)).Failure? &&
            !old(DecryptAll(JoinRows(db.records, db.keys), kms)).error.HttpError? ==>
              r == old(DecryptAll(JoinRows(db.records, db.keys), kms)) && unchanged(db)
    ensures old(DecryptAll(JoinRows(db.records, db.keys), kms)).Failure? &&
            old(DecryptAll(JoinRows(db.records, db.keys), kms)).error.HttpError? &&
            old(DecryptAll(JoinRows(db.records, db.keys), kms)).error.status != 400 ==>
              r == Failure(HttpException(500)) && unchanged(db)
    ensures old(DecryptAll(JoinRows(db.records, db.keys), kms)) == Failure(HttpError(400)) ==>
              db.records == [] &&
              (kms.outage.None? ==>
                 r == Success([]) &&
                 db.keys == [KeyRow(old(db.nextKeyId), LOGICAL_NAME, VaultEncryptKey(kms, freshDek).value, KEK_ID,
                                    old(db.clock), Active)]) &&
              (kms.outage.Some? ==> r == Failure(HttpError(400)) && db.keys == [])
    ensures (forall i :: 0 <= i < |old(db.keys)| ==> Unwrappable(kms, old(db.keys)[i].dekWrapped)) ==>
              r == Success(old(Expected(db.records, db.forms)))
  {
    ghost var before := DecryptAll(JoinRows(db.records, db.keys), kms);
    if kms.outage.Some? {
      DecryptAllOutage(JoinRows(db.records, db.keys), kms);
    }
    if forall i :: 0 <= i < |db.keys| ==> Unwrappable(kms, db.keys[i].dekWrapped) {
      DecryptAllEnvelope(db.keys, db.records, db.deks, db.forms, kms);
      assert before == Success(Expected(db.records, db.forms));
    }
    var first := DecryptRecords(db, kms);
    if first.Success? || !first.error.HttpError? {
      return first;
    }
    if first.error.status != 400 {
      return Failure(HttpException(500));
    }
    var recovered := HandleStaleKeys(db, kms, freshDek);
    if recovered.Fail? {
      return Failure(recovered.error);
    }
    assert JoinRows(db.records, db.keys) == [];
    r := DecryptRecords(db, kms);
  }

  // ---------------------------------------------------------------------
  // Startup probes

  /** The outcome of one GET /v1/sys/health: a status, or a requests exception. */
  datatype HealthProbe = Answered(code: int) | Unreachable

  /** Active, standby, DR or performance standby, recovery or uninitialised: Vault is serving. */
  predicate VaultUp(p: HealthProbe) {
    p.Answered? && p.code in {200, 429, 472, 473, 499}
  }

  const VAULT_NOT_READY: string := "Vault not ready; check enc_vault logs."
  const MYSQL_NOT_READY: string := "MySQL not ready; check enc_mysql logs."

  /** The number of loop turns `range(maxAttempts)` yields. */
  function Turns(maxAttempts: int): nat {
    if maxAttempts < 0 then 0 else maxAttempts
  }

  /**
   * `_wait_for_vault`: probe up to `maxAttempts` times, returning at the first
   * probe that reports Vault serving; `probe(k)` is the k-th probe's outcome.
   */
  method WaitForVault(probe: nat -> HealthProbe, maxAttempts: int) returns (r: Outcome<Error>, attempts: nat)
    ensures r.Pass? <==> exists k :: 0 <= k < maxAttempts && VaultUp(probe(k))
    ensures r.Pass? ==> 0 < attempts <= Turns(maxAttempts) && VaultUp(probe(attempts - 1))
    ensures forall k :: 0 <= k < attempts && (r.Fail? || k < attempts - 1) ==> !VaultUp(probe(k))
    ensures r.Fail? ==> r.error == NotReady(VAULT_NOT_READY) && attempts == Turns(maxAttempts)
  {
    attempts := 0;
    while attempts < maxAttempts
      invariant attempts <= Turns(maxAttempts)
      invariant forall k :: 0 <= k < attempts ==> !VaultUp(probe(k))
      decreases maxAttempts - attempts
    {
      if VaultUp(probe(attempts)) {
        return Pass, attempts + 1;
      }
      attempts := attempts + 1;
    }
    return Fail(NotReady(VAULT_NOT_READY)), attempts;
  }

  /**
   * `_wait_for_mysql`: try to connect up to `maxAttempts` times, returning at
   * the first connection that succeeds; `connects(k)` is the k-th outcome.
   */
  method WaitForMysql(connects: nat -> bool, maxAttempts: int) returns (r: Outcome<Error>, attempts: nat)
    ensures r.Pass? <==> exists k :: 0 <= k < maxAttempts && connects(k)
    ensures r.Pass? ==> 0 < attempts <= Turns(maxAttempts) && connects(attempts - 1)
    ensures forall k :: 0 <= k < attempts && (r.Fail? || k < attempts - 1) ==> !connects(k)
    ensures r.Fail? ==> r.error == NotReady(MYSQL_NOT_READY) && attempts == Turns(maxAttempts)
  {
    attempts := 0;
    while attempts < maxAttempts
      invariant attempts <= Turns(maxAttempts)
      invariant forall k :: 0 <= k < attempts ==> !connects(k)
      decreases maxAttempts - attempts
    {
      if connects(attempts) {
        return Pass, attempts + 1;
      }
      attempts := attempts + 1;
    }
    return Fail(NotReady(MYSQL_NOT_READY)), attempts;
  }
}
