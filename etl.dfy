/**
 * The decryption pipeline (app/etl.py): every stored record is joined to its
 * own key row, the key is unwrapped through Vault and each non-NULL field is
 * authenticated and decrypted with its field name as associated data.
 */
module Etl {
  import opened Wrappers
  import opened Binary
  import opened Exceptions
  import opened CryptoUtils
  import opened KeyStore
  import Utf8

  /** One entry of the list decrypt_records returns. */
  datatype PlainRecord = PlainRecord(
    id: nat,
    firstName: Option<string>,
    middleName: Option<string>,
    lastName: Option<string>,
    phone: Option<string>,
    email: Option<string>,
    phoneDnc: bool,
    emailDnc: bool,
    createdAt: nat)

  /** A row of `contact_form JOIN encryption_keys ON key_id = id`: the record and its key's wrapped DEK. */
  datatype JoinedRow = JoinedRow(record: ContactRow, dekWrapped: WrappedKey)

  /** The errors authenticated decryption of one field can raise. */
  predicate FieldError(e: Error) {
    e == InvalidKeyLength || e == InvalidNonceLength || e == InvalidTag || e == UnicodeDecodeError
  }

  /** `_decrypt_field`: NULL stays None; a blob is opened with the field as associated data and read as UTF-8. */
  function DecryptField(dek: Bytes, blob: Option<Blob>, field: string): (r: Result<Option<string>, Error>)
    ensures blob.None? ==> r == Success(None)
    ensures blob.Some? && r.Success? ==> r.value.Some?
    ensures blob.Some? && r.Success? ==> AesGcmDecrypt(dek, blob.value, Utf8.Encode(field)).Success?
    ensures blob.Some? && !ValidKeyLength(dek) ==> r == Failure(InvalidKeyLength)
    ensures r.Failure? ==> FieldError(r.error)
  {
    match blob
    case None => Success(None)
    case Some(b) =>
      var plaintext :- AesGcmDecrypt(dek, b, Utf8.Encode(field));
      var value :- Utf8.Decode(plaintext);
      Success(Some(value))
  }

  /**
   * The record built from its five field results, evaluated in the order of
   * the dict literal: the first failing field's error, or every value.
   */
  function Assemble(row: ContactRow, first: Result<Option<string>, Error>, middle: Result<Option<string>, Error>,
                    last: Result<Option<string>, Error>, phone: Result<Option<string>, Error>,
                    email: Result<Option<string>, Error>): (r: Result<PlainRecord, Error>)
    ensures r.Success? <==> first.Success? && middle.Success? && last.Success? && phone.Success? && email.Success?
    ensures r.Success? ==> r.value == PlainRecord(row.id, first.value, middle.value, last.value, phone.value, email.value,
                                                  row.phoneDnc, row.emailDnc, row.createdAt)
    ensures first.Failure? ==> r == Failure(first.error)
    ensures first.Success? && middle.Failure? ==> r == Failure(middle.error)
    ensures first.Success? && middle.Success? && last.Failure? ==> r == Failure(last.error)
    ensures first.Success? && middle.Success? && last.Success? && phone.Failure? ==> r == Failure(phone.error)
    ensures first.Success? && middle.Success? && last.Success? && phone.Success? && email.Failure? ==>
              r == Failure(email.error)
  {
    var f :- first;
    var m :- middle;
    var l :- last;
    var p :- phone;
    var e :- email;
    Success(PlainRecord(row.id, f, m, l, p, e, row.phoneDnc, row.emailDnc, row.createdAt))
  }

  /** The five field decryptions of one record, each with its field name as associated data. */
  function DecryptFields(row: ContactRow, dek: Bytes): (r: Result<PlainRecord, Error>)
    ensures r.Success? ==> r.value.id == row.id && r.value.createdAt == row.createdAt
    ensures r.Success? ==> r.value.phoneDnc == row.phoneDnc && r.value.emailDnc == row.emailDnc
    ensures r.Success? ==> r.value.firstName.Some? && r.value.lastName.Some? && r.value.phone.Some? && r.value.email.Some?
    ensures r.Success? ==> (r.value.middleName.None? <==> row.middleNameEnc.None?)
    ensures !ValidKeyLength(dek) ==> r == Failure(InvalidKeyLength)
  {
    Assemble(row,
      DecryptField(dek, Some(row.firstNameEnc), FIRST_NAME),
      DecryptField(dek, row.middleNameEnc, MIDDLE_NAME),
      DecryptField(dek, Some(row.lastNameEnc), LAST_NAME),
      DecryptField(dek, Some(row.phoneEnc), PHONE),
      DecryptField(dek, Some(row.emailEnc), EMAIL))
  }

  /** One iteration of the loop: unwrap the row's own DEK, then decrypt its fields. */
  function DecryptRow(j: JoinedRow, kms: Kms): (r: Result<PlainRecord, Error>)
    ensures kms.outage.Some? ==> r == Failure(HttpError(kms.outage.value))
    ensures kms.outage.None? && j.dekWrapped.generation != kms.generation ==> r == Failure(HttpError(400))
    ensures r.Success? ==> Unwrappable(kms, j.dekWrapped)
    ensures r.Success? ==> VaultDecryptKey(kms, j.dekWrapped).Success? &&
                           DecryptFields(j.record, VaultDecryptKey(kms, j.dekWrapped).value) == r
  {
    var dek :- VaultDecryptKey(kms, j.dekWrapped);
    DecryptFields(j.record, dek)
  }

  /** The inner join, in the order of the record table. */
  function JoinRows(records: seq<ContactRow>, keys: seq<KeyRow>): (r: seq<JoinedRow>)
    ensures |r| <= |records|
    ensures forall k :: 0 <= k < |r| ==> KeyIndex(keys, r[k].record.keyId).Some? &&
                                         r[k].dekWrapped == keys[KeyIndex(keys, r[k].record.keyId).value].dekWrapped
    decreases |records|
  {
    if records == [] then []
    else
      var n := |records| - 1;
      var init := JoinRows(records[..n], keys);
      match KeyIndex(keys, records[n].keyId)
      case None => init
      case Some(i) => init + [JoinedRow(records[n], keys[i].dekWrapped)]
  }

  /** The results of a loop that stops at the first failure: every value in order, or the first error. */
  function Collect<T>(rs: seq<Result<T, Error>>): (r: Result<seq<T>, Error>)
    ensures r.Success? ==> |r.value| == |rs|
    ensures r.Success? ==> forall k :: 0 <= k < |rs| ==> rs[k] == Success(r.value[k])
    decreases |rs|
  {
    if rs == [] then Success([])
    else
      var init :- Collect(rs[..|rs| - 1]);
      var last :- rs[|rs| - 1];
      Success(init + [last])
  }

  /** The outcome of each joined row on its own. */
  function RowResults(rows: seq<JoinedRow>, kms: Kms): (rs: seq<Result<PlainRecord, Error>>)
    ensures |rs| == |rows|
    ensures forall k :: 0 <= k < |rows| ==> rs[k] == DecryptRow(rows[k], kms)
  {
    seq(|rows|, k requires 0 <= k < |rows| => DecryptRow(rows[k], kms))
  }

  /** The whole batch: the decrypted rows in order, or the first failing row's error. */
  function DecryptAll(rows: seq<JoinedRow>, kms: Kms): Result<seq<PlainRecord>, Error> {
    Collect(RowResults(rows, kms))
  }

  /** `decrypt_records`: the loop that appends one decrypted record per joined row. */
  method DecryptRecords(db: Database, kms: Kms) returns (r: Result<seq<PlainRecord>, Error>)
    ensures r == DecryptAll(JoinRows(db.records, db.keys), kms)
  {
    var rows := JoinRows(db.records, db.keys);
    ghost var results := RowResults(rows, kms);
    var records: seq<PlainRecord> := [];
    var i := 0;
    while i < |rows|
      invariant 0 <= i <= |rows|
      invariant Collect(results[..i]) == Success(records)
    {
      var rec := DecryptRow(rows[i], kms);
      assert rec == results[i];
      CollectStep(results, i);
      if rec.Failure? {
        CollectPrefixFailure(results, i + 1);
        return Failure(rec.error);
      }
      records := records + [rec.value];
      i := i + 1;
    }
    assert results[..i] == results;
    r := Success(records);
  }

  /** Extending a successful prefix by one element: its value is appended, or its error is the result. */
  lemma CollectStep<T>(rs: seq<Result<T, Error>>, i: nat)
    requires i < |rs| && Collect(rs[..i]).Success?
    ensures rs[i].Success? ==> Collect(rs[..i + 1]) == Success(Collect(rs[..i]).value + [rs[i].value])
    ensures rs[i].Failure? ==> Collect(rs[..i + 1]) == Failure(rs[i].error)
  {
    assert rs[..i + 1][..i] == rs[..i];
  }

  /** Once a prefix fails, the whole sequence fails with the same error. */
  lemma {:induction false} CollectPrefixFailure<T>(rs: seq<Result<T, Error>>, i: nat)
    requires i <= |rs| && Collect(rs[..i]).Failure?
    ensures Collect(rs) == Collect(rs[..i])
    decreases |rs| - i
  {
    if i == |rs| {
      assert rs[..i] == rs;
    } else {
      var pre := rs[..i + 1];
      assert pre[..|pre| - 1] == rs[..i];
      CollectPrefixFailure(rs, i + 1);
    }
  }

  /** The sequence succeeds exactly when every element does. */
  lemma {:induction false} CollectSucceeds<T>(rs: seq<Result<T, Error>>)
    ensures Collect(rs).Success? <==> forall k :: 0 <= k < |rs| ==> rs[k].Success?
    decreases |rs|
  {
    if rs != [] {
      var init := rs[..|rs| - 1];
      CollectSucceeds(init);
      assert forall k :: 0 <= k < |init| ==> init[k] == rs[k];
    }
  }

  /** The sequence fails with the error of its first failing element. */
  lemma {:induction false} CollectFirstError<T>(rs: seq<Result<T, Error>>, i: nat)
    requires i < |rs| && rs[i].Failure?
    requires forall k :: 0 <= k < i ==> rs[k].Success?
    ensures Collect(rs) == Failure(rs[i].error)
    decreases |rs|
  {
    var init := rs[..|rs| - 1];
    assert forall k :: 0 <= k < |init| ==> init[k] == rs[k];
    if i == |rs| - 1 {
      CollectSucceeds(init);
    } else {
      CollectFirstError(init, i);
    }
  }

  /** The batch fails exactly with the error of its first failing row: no partial result is returned. */
  lemma DecryptAllFirstError(rows: seq<JoinedRow>, kms: Kms, i: nat)
    requires i < |rows| && DecryptRow(rows[i], kms).Failure?
    requires forall k :: 0 <= k < i ==> DecryptRow(rows[k], kms).Success?
    ensures DecryptAll(rows, kms) == Failure(DecryptRow(rows[i], kms).error)
  {
    CollectFirstError(RowResults(rows, kms), i);
  }

  /** While Vault is failing every request, a non-empty batch fails with Vault's status. */
  lemma DecryptAllOutage(rows: seq<JoinedRow>, kms: Kms)
    requires kms.outage.Some?
    ensures DecryptAll(rows, kms) == if rows == [] then Success([]) else Failure(HttpError(kms.outage.value))
  {
    if rows != [] {
      DecryptAllFirstError(rows, kms, 0);
    }
  }

  /** The batch succeeds exactly when every row decrypts, and then holds each row's record at its position. */
  lemma DecryptAllSucceeds(rows: seq<JoinedRow>, kms: Kms)
    ensures DecryptAll(rows, kms).Success? <==> forall k :: 0 <= k < |rows| ==> DecryptRow(rows[k], kms).Success?
    ensures DecryptAll(rows, kms).Success? ==>
              |DecryptAll(rows, kms).value| == |rows| &&
              forall k :: 0 <= k < |rows| ==> DecryptRow(rows[k], kms) == Success(DecryptAll(rows, kms).value[k])
  {
    CollectSucceeds(RowResults(rows, kms));
  }

  /** Under the foreign key the join loses no record: the k-th joined row is the k-th record with its own key. */
  lemma {:induction false} JoinComplete(records: seq<ContactRow>, keys: seq<KeyRow>)
    requires ForeignKey(records, keys)
    ensures |JoinRows(records, keys)| == |records|
    ensures forall k :: 0 <= k < |records| ==>
              JoinRows(records, keys)[k] == JoinedRow(records[k], keys[KeyIndex(keys, records[k].keyId).value].dekWrapped)
    decreases |records|
  {
    if records != [] {
      var n := |records| - 1;
      assert ForeignKey(records[..n], keys) by {
        forall k | 0 <= k < n ensures KeyIndex(keys, records[..n][k].keyId).Some? {
          assert records[..n][k] == records[k];
        }
      }
      JoinComplete(records[..n], keys);
      assert KeyIndex(keys, records[n].keyId).Some?;
    }
  }

  /** Every joined row comes from a record whose id is below `bound` when all of them are. */
  lemma {:induction false} JoinBelow(records: seq<ContactRow>, keys: seq<KeyRow>, bound: nat)
    requires forall i :: 0 <= i < |records| ==> records[i].id < bound
    ensures forall k :: 0 <= k < |JoinRows(records, keys)| ==> JoinRows(records, keys)[k].record.id < bound
    decreases |records|
  {
    if records != [] {
      var n := |records| - 1;
      assert forall i :: 0 <= i < n ==> records[..n][i] == records[i];
      JoinBelow(records[..n], keys, bound);
    }
  }

  /** The output keeps the ascending id order of the record table. */
  lemma {:induction false} JoinAscending(records: seq<ContactRow>, keys: seq<KeyRow>)
    requires forall i, j :: 0 <= i < j < |records| ==> records[i].id < records[j].id
    ensures forall i, j :: 0 <= i < j < |JoinRows(records, keys)| ==>
              JoinRows(records, keys)[i].record.id < JoinRows(records, keys)[j].record.id
    decreases |records|
  {
    if records != [] {
      var n := |records| - 1;
      var pre := records[..n];
      assert forall i :: 0 <= i < n ==> pre[i] == records[i];
      JoinAscending(pre, keys);
      JoinBelow(pre, keys, records[n].id);
    }
  }

  /** Decryption copies `id`, `created_at` and both flags of each record into its output record, in order. */
  lemma DecryptAllCopies(records: seq<ContactRow>, keys: seq<KeyRow>, kms: Kms)
    requires ForeignKey(records, keys)
    requires DecryptAll(JoinRows(records, keys), kms).Success?
    ensures var out := DecryptAll(JoinRows(records, keys), kms).value;
            |out| == |records| &&
            forall k :: 0 <= k < |records| ==>
              out[k].id == records[k].id && out[k].createdAt == records[k].createdAt &&
              out[k].phoneDnc == records[k].phoneDnc && out[k].emailDnc == records[k].emailDnc
  {
    JoinComplete(records, keys);
    DecryptAllSucceeds(JoinRows(records, keys), kms);
  }
}
