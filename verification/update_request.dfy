/** The update-request form: the per-field draft of edits, the diff
    against the stored record, the two submit checks, and the request id. */
module UpdateRequest {
  import opened Wrappers
  import opened Strings
  import opened Seqs
  import opened Members
  import Decimal

  /** One edited field and the text typed into it. */
  datatype Entry = Entry(field: Field, value: string)

  predicate DistinctFields(d: seq<Entry>) {
    forall i, j :: 0 <= i < j < |d| ==> d[i].field != d[j].field
  }

  /** `updatedFields`: a partial member record, its keys in the order they
      were first edited, each key at most once. */
  type Draft = d: seq<Entry> | DistinctFields(d) witness []

  const EmptyDraft: Draft := []

  /** The fields the draft has keys for. */
  function Keys(d: Draft): set<Field> {
    set e | e in d :: e.field
  }

  /** Where field `f` sits in the draft, or `|d|` when it has no key. */
  function Position(d: Draft, f: Field): (i: nat)
    ensures i <= |d|
    ensures i < |d| ==> d[i].field == f
    ensures i == |d| <==> f !in Keys(d)
  {
    if |d| == 0 then 0
    else if d[0].field == f then 0
    else
      var t: Draft := d[1..];
      assert Keys(d) == {d[0].field} + Keys(t) by { assert d == [d[0]] + t; }
      Position(t, f) + 1
  }

  /** `updatedFields[f]`. */
  function Lookup(d: Draft, f: Field): (r: Option<string>)
    ensures r.Some? <==> f in Keys(d)
    ensures r.Some? ==> Entry(f, r.value) in d
  {
    var i := Position(d, f);
    if i < |d| then Some(d[i].value) else None
  }

  /** An entry is in the draft exactly when the draft maps its field to its
      value. */
  lemma LookupIff(d: Draft, e: Entry)
    ensures e in d <==> Lookup(d, e.field) == Some(e.value)
  {
    if e in d {
      var k :| 0 <= k < |d| && d[k] == e;
      var i := Position(d, e.field);
      assert i == k;
    }
  }

  /** `handleFieldChange(f, v)`: the draft now maps `f` to `v`, every other
      key keeps its value, a key already present keeps its place, and a new
      key goes last. */
  function FieldChange(d: Draft, f: Field, v: string): (r: Draft)
    ensures Lookup(r, f) == Some(v)
    ensures forall g :: g != f ==> Lookup(r, g) == Lookup(d, g)
    ensures Keys(r) == Keys(d) + {f}
    ensures |r| == if f in Keys(d) then |d| else |d| + 1
    ensures forall i :: 0 <= i < |d| ==> r[i].field == d[i].field
  {
    var i := Position(d, f);
    var r: seq<Entry> := if i < |d| then d[i := Entry(f, v)] else d + [Entry(f, v)];
    assert DistinctFields(r);
    var r: Draft := r;
    forall g | g != f ensures Lookup(r, g) == Lookup(d, g) {
      OtherKeysUnchanged(d, r, f, g);
    }
    assert Lookup(r, f) == Some(v) by {
      assert r[i] == Entry(f, v);
      LookupIff(r, Entry(f, v));
    }
    assert forall g :: g in Keys(r) <==> g in Keys(d) + {f} by {
      forall g ensures g in Keys(r) <==> g in Keys(d) + {f} {
        if g != f {
          assert Lookup(r, g) == Lookup(d, g);
        }
      }
    }
    r
  }

  /** The step behind `FieldChange`'s frame condition. */
  lemma OtherKeysUnchanged(d: Draft, r: Draft, f: Field, g: Field)
    requires g != f
    requires |d| <= |r|
    requires forall i :: 0 <= i < |d| ==> r[i].field == d[i].field
    requires forall i :: 0 <= i < |d| && d[i].field != f ==> r[i] == d[i]
    requires forall i :: |d| <= i < |r| ==> r[i].field == f
    ensures Lookup(r, g) == Lookup(d, g)
  {
    if Lookup(d, g).Some? {
      var e := Entry(g, Lookup(d, g).value);
      var k :| 0 <= k < |d| && d[k] == e;
      assert r[k] == e;
      LookupIff(r, e);
    }
  }

  /** Whether a draft entry differs from the record: strict inequality
      against `member[field]`, so an absent optional field differs from
      every string, even "". */
  predicate Differs(m: Member, e: Entry) {
    Some(e.value) != Get(m, e.field)
  }

  /** `getChangedFields()`: the draft entries whose value differs from the
      member's, in draft order. */
  function ChangedFields(m: Member, d: Draft): seq<Entry> {
    Filter(d, e => Differs(m, e))
  }

  /** The changed set lists field `f` exactly when the draft has a key for
      `f` whose value differs from the member's; it lists nothing the draft
      does not hold, and keeps the draft's order. */
  lemma ChangedFieldsExact(m: Member, d: Draft)
    ensures forall e :: e in ChangedFields(m, d) <==> e in d && Differs(m, e)
    ensures forall f :: (exists e :: e in ChangedFields(m, d) && e.field == f)
                         <==> Lookup(d, f).Some? && Lookup(d, f) != Get(m, f)
    ensures IsSubsequence(ChangedFields(m, d), d)
  {
    FilterSpec(d, e => Differs(m, e));
    forall f ensures (exists e :: e in ChangedFields(m, d) && e.field == f)
                     <==> Lookup(d, f).Some? && Lookup(d, f) != Get(m, f) {
      if Lookup(d, f).Some? {
        LookupIff(d, Entry(f, Lookup(d, f).value));
      }
      if exists e :: e in ChangedFields(m, d) && e.field == f {
        var e :| e in ChangedFields(m, d) && e.field == f;
        LookupIff(d, e);
      }
    }
  }

  /** The result of pressing "Submit Request". */
  datatype Outcome = NoChangesDetected | ReasonRequired | Submitted(requestId: string)

  /** `handleSubmitRequest`, as one step: first, a draft without keys is
      refused; then a blank reason is refused; otherwise a request id is
      issued from the timestamp `now` (milliseconds). The stored record plays
      no part: a draft whose every value equals the record still passes. */
  function SubmitRequest(d: Draft, reason: string, now: nat): (r: Outcome)
    ensures r == NoChangesDetected <==> |d| == 0
    ensures r == ReasonRequired <==> |d| > 0 && IsBlank(reason)
    ensures r.Submitted? ==> r.requestId == RequestId(now)
  {
    if |d| == 0 then NoChangesDetected
    else if Trim(reason) == "" then ReasonRequired
    else Submitted(RequestId(now))
  }

  /** `UPD-` followed by the last six digits of the decimal timestamp. */
  function RequestId(now: nat): (id: string)
    ensures 5 <= |id| <= 10
    ensures id[..4] == "UPD-"
    ensures Decimal.AllDigits(id[4..])
    ensures now >= 100000 ==> |id| == 10
  {
    var suffix := Decimal.Last(Decimal.ToDecimal(now), 6);
    Decimal.SixDigitsFromOneHundredThousand(now);
    Decimal.LastDigitsValue(now, |suffix|);
    "UPD-" + suffix
  }

  /** The digits of a request id are the timestamp modulo one million: the
      id determines the low six decimal digits of the time it was issued. */
  lemma RequestIdDigits(now: nat)
    ensures Decimal.Value(RequestId(now)[4..]) == now % 1000000
  {
    var digits := Decimal.ToDecimal(now);
    var suffix := Decimal.Last(digits, 6);
    assert RequestId(now)[4..] == suffix;
    Decimal.LastDigitsValue(now, |suffix|);
    if |suffix| < 6 {
      Decimal.LengthBound(now);
      assert Decimal.Pow10(|suffix|) <= Decimal.Pow10(5) by { Decimal.PowMonotone(|suffix|, 5); }
      Decimal.ModUnique(now, Decimal.Pow10(|suffix|), 0, now);
      Decimal.ModUnique(now, 1000000, 0, now);
    } else {
      assert Decimal.Pow10(6) == 1000000;
    }
  }

  /** The text an edit box shows: the draft's value if the field has a key,
      else the member's value, else "" (`??`, so an edited "" is shown as
      ""). */
  function Displayed(d: Draft, m: Member, f: Field): (s: string)
    ensures Lookup(d, f).Some? ==> s == Lookup(d, f).value
    ensures Lookup(d, f).None? ==> s == Get(m, f).GetOr("")
  {
    Lookup(d, f).GetOr(Get(m, f).GetOr(""))
  }

  /** Typing into a box shows what was typed; an untouched form shows the
      record, with "" for an absent optional field. */
  lemma DisplayedAfterEdit(d: Draft, m: Member, f: Field, v: string)
    ensures Displayed(FieldChange(d, f, v), m, f) == v
    ensures Displayed(EmptyDraft, m, f) == Get(m, f).GetOr("")
    ensures IsRequired(f) ==> Displayed(EmptyDraft, m, f) == Get(m, f).value
  {
  }

  /** Editing a field and typing its original value back leaves the key in
      the draft: the "no changes" check passes although nothing differs. */
  lemma RevertKeepsKey(m: Member, d: Draft, f: Field, x: string, reason: string, now: nat)
    requires Get(m, f).Some?
    ensures var r := FieldChange(FieldChange(d, f, x), f, Get(m, f).value);
      && f in Keys(r)
      && SubmitRequest(r, reason, now) != NoChangesDetected
      && (forall e :: e in ChangedFields(m, r) ==> e.field != f)
  {
    var r := FieldChange(FieldChange(d, f, x), f, Get(m, f).value);
    ChangedFieldsExact(m, r);
    assert |r| > 0 by { assert f in Keys(r); }
  }

  /** From an empty draft, an edit reverted leaves an empty changed set but
      a draft that submits. */
  lemma RevertFromEmpty(m: Member, f: Field, x: string, reason: string, now: nat)
    requires Get(m, f).Some?
    requires !IsBlank(reason)
    ensures var r := FieldChange(FieldChange(EmptyDraft, f, x), f, Get(m, f).value);
      && ChangedFields(m, r) == []
      && SubmitRequest(r, reason, now) == Submitted(RequestId(now))
  {
    var r := FieldChange(FieldChange(EmptyDraft, f, x), f, Get(m, f).value);
    RevertKeepsKey(m, EmptyDraft, f, x, reason, now);
    assert Keys(r) == {f};
    ChangedFieldsExact(m, r);
  }

  /** An absent optional field counts as changed by any edit, "" included. */
  lemma AbsentFieldAlwaysChanged(m: Member, d: Draft, f: Field, v: string)
    requires Get(m, f).None?
    ensures Entry(f, v) in ChangedFields(m, FieldChange(d, f, v))
  {
    var r := FieldChange(d, f, v);
    ChangedFieldsExact(m, r);
    LookupIff(r, Entry(f, v));
  }
}
