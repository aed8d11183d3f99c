/**
 * The MySQL tables the core works on (app/db.py): `encryption_keys` and
 * `contact_form`, with the foreign key from `contact_form.key_id` to
 * `encryption_keys.id`, and the queries the core runs against them.
 * `created_at` is modelled as a counter shared by both tables that grows
 * with every insertion; ids are AUTO_INCREMENT counters that a DELETE does
 * not reset.
 */
module KeyStore {
  import opened Wrappers
  import opened Binary
  import opened Exceptions
  import opened CryptoUtils

  datatype KeyStatus = Active | Retiring | Retired

  /** A row of `encryption_keys`. */
  datatype KeyRow = KeyRow(
    id: nat,
    logicalName: string,
    dekWrapped: WrappedKey,
    kekId: string,
    createdAt: nat,
    status: KeyStatus)

  /** A row of `contact_form`; only `middle_name_enc` is nullable. */
  datatype ContactRow = ContactRow(
    id: nat,
    firstNameEnc: Blob,
    middleNameEnc: Option<Blob>,
    lastNameEnc: Blob,
    phoneEnc: Blob,
    emailEnc: Blob,
    phoneDnc: bool,
    emailDnc: bool,
    keyId: nat,
    createdAt: nat)

  /** A validated submission (the ContactForm model of app/main.py). */
  datatype ContactForm = ContactForm(
    firstName: string,
    middleName: Option<string>,
    lastName: string,
    phone: string,
    email: string,
    phoneDnc: bool,
    emailDnc: bool)

  /** The field names that serve as associated data for each encrypted column. */
  const FIRST_NAME: string := "first_name"
  const MIDDLE_NAME: string := "middle_name"
  const LAST_NAME: string := "last_name"
  const PHONE: string := "phone"
  const EMAIL: string := "email"

  /** The width of every encrypted column: `VARBINARY(512)`. */
  const BLOB_WIDTH: nat := 512

  /** A blob MySQL stores in an encrypted column without truncation. */
  predicate Fits(b: Blob) {
    |b| <= BLOB_WIDTH
  }

  /** Every encrypted column of a `contact_form` row fits its width; a NULL middle name always does. */
  predicate ColumnsFit(first: Blob, middle: Option<Blob>, last: Blob, phone: Blob, email: Blob) {
    Fits(first) && (middle.None? || Fits(middle.value)) && Fits(last) && Fits(phone) && Fits(email)
  }

  predicate IsActive(k: KeyRow, name: string) {
    k.logicalName == name && k.status == Active
  }

  /** `SELECT id FROM encryption_keys WHERE logical_name = name AND status = 'active' LIMIT 1` finds a row. */
  predicate HasActive(keys: seq<KeyRow>, name: string) {
    exists i :: 0 <= i < |keys| && IsActive(keys[i], name)
  }

  /**
   * The row `ORDER BY created_at DESC LIMIT 1` selects among the active keys
   * of `name`: one with the greatest `created_at` (the later row on a tie).
   */
  function NewestActive(keys: seq<KeyRow>, name: string): (r: Option<nat>)
    ensures r.None? <==> !HasActive(keys, name)
    ensures r.Some? ==> r.value < |keys| && IsActive(keys[r.value], name)
    ensures r.Some? ==> forall j :: 0 <= j < |keys| && IsActive(keys[j], name) ==>
                          keys[j].createdAt <= keys[r.value].createdAt
    decreases |keys|
  {
    if |keys| == 0 then None
    else
      var last := |keys| - 1;
      var best := NewestActive(keys[..last], name);
      if !IsActive(keys[last], name) then best
      else if best.Some? && keys[best.value].createdAt > keys[last].createdAt then best
      else Some(last)
  }

  /** At most one key of `name` is active: the invariant sequential runs keep. */
  ghost predicate AtMostOneActive(keys: seq<KeyRow>, name: string) {
    forall i, j :: 0 <= i < |keys| && 0 <= j < |keys| && IsActive(keys[i], name) && IsActive(keys[j], name) ==> i == j
  }

  /** The position of the key row with primary key `id`. */
  function KeyIndex(keys: seq<KeyRow>, id: nat): (r: Option<nat>)
    ensures r.Some? ==> r.value < |keys| && keys[r.value].id == id
    ensures r.None? ==> forall j :: 0 <= j < |keys| ==> keys[j].id != id
    decreases |keys|
  {
    if |keys| == 0 then None
    else if keys[|keys| - 1].id == id then Some(|keys| - 1)
    else KeyIndex(keys[..|keys| - 1], id)
  }

  /** Ids and `created_at` grow along the table, below the next values to hand out. */
  ghost predicate KeysOrdered(keys: seq<KeyRow>, nextId: nat, clock: nat) {
    (forall i, j :: 0 <= i < j < |keys| ==> keys[i].id < keys[j].id && keys[i].createdAt < keys[j].createdAt) &&
    (forall i :: 0 <= i < |keys| ==> keys[i].id < nextId && keys[i].createdAt < clock)
  }

  ghost predicate RecordsOrdered(records: seq<ContactRow>, nextId: nat, clock: nat) {
    (forall i, j :: 0 <= i < j < |records| ==> records[i].id < records[j].id) &&
    (forall i :: 0 <= i < |records| ==> records[i].id < nextId && records[i].createdAt < clock)
  }

  /** `FOREIGN KEY (key_id) REFERENCES encryption_keys(id)`. */
  ghost predicate ForeignKey(records: seq<ContactRow>, keys: seq<KeyRow>) {
    forall i :: 0 <= i < |records| ==> KeyIndex(keys, records[i].keyId).Some?
  }

  /** In a table ordered by `created_at`, the newest active key is the last active one. */
  lemma {:induction false} NewestActiveIsLast(keys: seq<KeyRow>, name: string, i: nat)
    requires forall a, b :: 0 <= a < b < |keys| ==> keys[a].createdAt < keys[b].createdAt
    requires i < |keys| && IsActive(keys[i], name)
    requires forall j :: i < j < |keys| ==> !IsActive(keys[j], name)
    ensures NewestActive(keys, name) == Some(i)
  {
    var r := NewestActive(keys, name).value;
    assert keys[i].createdAt <= keys[r].createdAt;
    assert !(r < i) && !(i < r);
  }

  /** A key appended to a table without an active key of `name` is then its only one. */
  lemma AppendToNoActive(keys: seq<KeyRow>, k: KeyRow, name: string)
    requires !HasActive(keys, name)
    ensures AtMostOneActive(keys + [k], name)
    ensures IsActive(k, name) ==> HasActive(keys + [k], name)
  {
    var ks := keys + [k];
    forall m | 0 <= m < |keys|
      ensures !IsActive(ks[m], name)
    {
      assert ks[m] == keys[m];
    }
    if IsActive(k, name) {
      assert IsActive(ks[|keys|], name);
    }
  }

  /**
   * What the two tables and the counters keep between statements: both
   * tables ordered, the foreign key, and a DEK and a form recorded for every
   * key row and every record.
   */
  ghost predicate Consistent(keys: seq<KeyRow>, records: seq<ContactRow>, nextKeyId: nat, nextRecordId: nat, clock: nat,
                             deks: map<nat, Bytes>, forms: map<nat, ContactForm>) {
    KeysOrdered(keys, nextKeyId, clock) &&
    RecordsOrdered(records, nextRecordId, clock) &&
    ForeignKey(records, keys) &&
    (forall i :: 0 <= i < |keys| ==> keys[i].id in deks) &&
    (forall i :: 0 <= i < |records| ==> records[i].id in forms)
  }

  /** A key stamped with the next id and the clock keeps the tables consistent and every reference intact. */
  lemma AppendKey(keys: seq<KeyRow>, records: seq<ContactRow>, nextKeyId: nat, nextRecordId: nat, clock: nat,
                  deks: map<nat, Bytes>, forms: map<nat, ContactForm>, row: KeyRow, dek: Bytes)
    requires Consistent(keys, records, nextKeyId, nextRecordId, clock, deks, forms)
    requires row.id == nextKeyId && row.createdAt == clock
    ensures Consistent(keys + [row], records, nextKeyId + 1, nextRecordId, clock + 1, deks[row.id := dek], forms)
  {
    var keys' := keys + [row];
    forall i | 0 <= i < |records|
      ensures KeyIndex(keys', records[i].keyId).Some?
    {
      var k := KeyIndex(keys, records[i].keyId).value;
      assert keys'[k].id == records[i].keyId;
    }
    assert KeysOrdered(keys', nextKeyId + 1, clock + 1);
  }

  /** A record stamped with the next id and the clock, naming an existing key, keeps the tables consistent. */
  lemma AppendRecord(keys: seq<KeyRow>, records: seq<ContactRow>, nextKeyId: nat, nextRecordId: nat, clock: nat,
                     deks: map<nat, Bytes>, forms: map<nat, ContactForm>, row: ContactRow, form: ContactForm)
    requires Consistent(keys, records, nextKeyId, nextRecordId, clock, deks, forms)
    requires row.id == nextRecordId && row.createdAt == clock && KeyIndex(keys, row.keyId).Some?
    ensures Consistent(keys, records + [row], nextKeyId, nextRecordId + 1, clock + 1, deks, forms[row.id := form])
  {
    assert KeysOrdered(keys, nextKeyId, clock + 1);
    assert RecordsOrdered(records + [row], nextRecordId + 1, clock + 1);
  }

  /**
   * The two tables, the AUTO_INCREMENT and clock counters, and (as ghost
   * state) the plaintext DEK behind each key row and the form each record
   * was sealed from; neither is ever stored.
   */
  class Database {
    var keys: seq<KeyRow>
    var records: seq<ContactRow>
    var nextKeyId: nat
    var nextRecordId: nat
    var clock: nat
    ghost var deks: map<nat, Bytes>
    ghost var forms: map<nat, ContactForm>

    ghost predicate Valid()
      reads this
    {
      Consistent(keys, records, nextKeyId, nextRecordId, clock, deks, forms)
    }

    /** The freshly created schema (`CREATE TABLE IF NOT EXISTS` on an empty database). */
    constructor ()
      ensures Valid()
      ensures keys == [] && records == []
    {
      keys, records := [], [];
      nextKeyId, nextRecordId, clock := 1, 1, 0;
      deks, forms := map[], map[];
    }

    /** `INSERT INTO encryption_keys (logical_name, dek_wrapped, kek_id, status) VALUES (..., 'active')`. */
    method InsertKey(logicalName: string, dekWrapped: WrappedKey, kekId: string, ghost dek: Bytes) returns (id: nat)
      requires Valid()
      modifies this
      ensures Valid()
      ensures id == old(nextKeyId)
      ensures keys == old(keys) + [KeyRow(id, logicalName, dekWrapped, kekId, old(clock), Active)]
      ensures records == old(records) && forms == old(forms)
      ensures deks == old(deks)[id := dek]
      ensures nextKeyId == id + 1 && nextRecordId == old(nextRecordId) && clock == old(clock) + 1
    {
      id := nextKeyId;
      var row := KeyRow(id, logicalName, dekWrapped, kekId, clock, Active);
      AppendKey(keys, records, nextKeyId, nextRecordId, clock, deks, forms, row, dek);
      keys := keys + [row];
      deks := deks[id := dek];
      nextKeyId, clock := nextKeyId + 1, clock + 1;
    }

    /**
     * `INSERT INTO contact_form (...)` under MySQL's default strict mode: a
     * blob wider than its column is refused before the row is formed; then
     * the foreign key refuses a `key_id` that names no key row, after InnoDB
     * has already spent the next AUTO_INCREMENT value on it.
     */
    method InsertRecord(
      firstNameEnc: Blob, middleNameEnc: Option<Blob>, lastNameEnc: Blob, phoneEnc: Blob, emailEnc: Blob,
      phoneDnc: bool, emailDnc: bool, keyId: nat, ghost form: ContactForm)
      returns (r: Result<nat, Error>)
      requires Valid()
      modifies this
      ensures Valid()
      ensures r.Success? <==> ColumnsFit(firstNameEnc, middleNameEnc, lastNameEnc, phoneEnc, emailEnc) &&
                              KeyIndex(keys, keyId).Some?
      ensures !ColumnsFit(firstNameEnc, middleNameEnc, lastNameEnc, phoneEnc, emailEnc) ==>
                r == Failure(DataError) && unchanged(this)
      ensures ColumnsFit(firstNameEnc, middleNameEnc, lastNameEnc, phoneEnc, emailEnc) && KeyIndex(keys, keyId).None? ==>
                r == Failure(IntegrityError) && nextRecordId == old(nextRecordId) + 1
      ensures r.Failure? ==> records == old(records) && forms == old(forms) && clock == old(clock)
      ensures r.Success? ==> r.value == old(nextRecordId)
      ensures r.Success? ==> records == old(records) + [ContactRow(r.value, firstNameEnc, middleNameEnc, lastNameEnc,
                                                                   phoneEnc, emailEnc, phoneDnc, emailDnc, keyId, old(clock))]
      ensures r.Success? ==> forms == old(forms)[r.value := form]
      ensures r.Success? ==> nextRecordId == old(nextRecordId) + 1 && clock == old(clock) + 1
      ensures keys == old(keys) && deks == old(deks) && nextKeyId == old(nextKeyId)
    {
      if !ColumnsFit(firstNameEnc, middleNameEnc, lastNameEnc, phoneEnc, emailEnc) {
        return Failure(DataError);
      }
      if KeyIndex(keys, keyId).None? {
        assert RecordsOrdered(records, nextRecordId + 1, clock);
        nextRecordId := nextRecordId + 1;
        return Failure(IntegrityError);
      }
      var id := nextRecordId;
      var row := ContactRow(id, firstNameEnc, middleNameEnc, lastNameEnc, phoneEnc, emailEnc,
                            phoneDnc, emailDnc, keyId, clock);
      AppendRecord(keys, records, nextKeyId, nextRecordId, clock, deks, forms, row, form);
      records, forms := records + [row], forms[id := form];
      nextRecordId, clock := nextRecordId + 1, clock + 1;
      r := Success(id);
    }

    /** `DELETE FROM contact_form`. */
    method DeleteAllRecords()
      requires Valid()
      modifies this
      ensures Valid()
      ensures records == [] && keys == old(keys)
      ensures nextKeyId == old(nextKeyId) && nextRecordId == old(nextRecordId) && clock == old(clock)
      ensures deks == old(deks) && forms == old(forms)
    {
      records := [];
    }

    /**
     * `DELETE FROM encryption_keys`; the foreign key makes MySQL refuse it
     * while any record still references a key.
     */
    method DeleteAllKeys() returns (r: Outcome<Error>)
      requires Valid()
      modifies this
      ensures Valid()
      ensures r.Pass? <==> old(records) == []
      ensures r.Pass? ==> keys == []
      ensures r.Fail? ==> r.error == IntegrityError && keys == old(keys)
      ensures records == old(records)
      ensures nextKeyId == old(nextKeyId) && nextRecordId == old(nextRecordId) && clock == old(clock)
      ensures deks == old(deks) && forms == old(forms)
    {
      if records != [] {
        return Fail(IntegrityError);
      }
      keys := [];
      r := Pass;
    }
  }
}
