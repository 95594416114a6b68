/**
 * The Record value type of record.py: an identifier and a value, ordered and
 * compared by value only.
 */
module RecordModel {
  import opened IntText

  /** `Record(record_id, record_value)`; the constructor stores both fields unchanged. */
  datatype Record = Record(recordId: int, recordValue: int)

  /** `a < b` (`__lt__`): compares the values; the identifiers play no part. */
  predicate Less(a: Record, b: Record)
  {
    a.recordValue < b.recordValue
  }

  /** `a == b` (`__eq__`): records with equal values are equal, whatever their identifiers. */
  predicate Equal(a: Record, b: Record)
  {
    a.recordValue == b.recordValue
  }

  /** `str(record)` (`__str__`). */
  function ToString(r: Record): string
  {
    "Record ID: " + IntToString(r.recordId) + ", Record Value: " + IntToString(r.recordValue)
  }

  /** The constructor keeps the identifier and the value it was given. */
  lemma ConstructorStores(id: int, value: int)
    ensures Record(id, value).recordId == id && Record(id, value).recordValue == value
  {
  }

  /** `<` holds exactly when the values are ordered, for any identifiers. */
  lemma LessByValueOnly(a: Record, b: Record, id1: int, id2: int)
    ensures Less(a, b) <==> Less(Record(id1, a.recordValue), Record(id2, b.recordValue))
    ensures Less(a, b) <==> a.recordValue < b.recordValue
  {
  }

  /** Records with different identifiers but equal values compare equal. */
  lemma EqualIgnoresId(a: Record, b: Record)
    requires a.recordValue == b.recordValue
    ensures Equal(a, b)
    ensures a.recordId != b.recordId ==> a != b
  {
  }

  /** `<` is a strict weak order and `==` is its indifference relation. */
  lemma StrictWeakOrder(a: Record, b: Record, c: Record)
    ensures !Less(a, a)
    ensures Less(a, b) && Less(b, c) ==> Less(a, c)
    ensures Equal(a, b) <==> !Less(a, b) && !Less(b, a)
    ensures Equal(a, a) && (Equal(a, b) ==> Equal(b, a))
    ensures Equal(a, b) && Equal(b, c) ==> Equal(a, c)
  {
  }

  /** For any two records exactly one of `a < b`, `a == b` and `b < a` holds. */
  lemma Trichotomy(a: Record, b: Record)
    ensures Less(a, b) || Equal(a, b) || Less(b, a)
    ensures !(Less(a, b) && Equal(a, b)) && !(Less(a, b) && Less(b, a)) && !(Equal(a, b) && Less(b, a))
  {
  }

  /** Equal records are interchangeable under `<`. */
  lemma EqualSubstitutes(a: Record, b: Record, c: Record)
    requires Equal(a, b)
    ensures Less(a, c) <==> Less(b, c)
    ensures Less(c, a) <==> Less(c, b)
  {
  }

  lemma {:induction false} NoCommaInInt(n: int)
    ensures forall i :: 0 <= i < |IntToString(n)| ==> IntToString(n)[i] != ','
  {
    IntToStringChars(n);
  }

  /** The rendering starts with the identifier's text, which ends at the first comma. */
  lemma {:induction false} PrefixBeforeComma(a: string, b: string, c: string, d: string)
    requires forall i :: 0 <= i < |a| ==> a[i] != ','
    requires forall i :: 0 <= i < |c| ==> c[i] != ','
    requires |b| > 0 && b[0] == ',' && |d| > 0 && d[0] == ','
    requires a + b == c + d
    ensures a == c && b == d
  {
    assert (a + b)[|a|] == ',' && (c + d)[|c|] == ',';
    assert forall i :: 0 <= i < |c| ==> (c + d)[i] == c[i] != ',';
    assert forall i :: 0 <= i < |a| ==> (a + b)[i] == a[i] != ',';
    assert |a| == |c|;
    assert a == (a + b)[..|a|];
    assert c == (c + d)[..|c|];
    assert b == (a + b)[|a|..];
    assert d == (c + d)[|c|..];
  }

  /**
   * `__str__` renders exactly "Record ID: <id>, Record Value: <value>", and the
   * rendering determines the record: distinct records print differently.
   */
  lemma {:induction false} ToStringInjective(r: Record, s: Record)
    requires ToString(r) == ToString(s)
    ensures r == s
  {
    var head := "Record ID: ";
    var mid := ", Record Value: ";
    var a, b := IntToString(r.recordId), IntToString(r.recordValue);
    var c, d := IntToString(s.recordId), IntToString(s.recordValue);
    assert ToString(r) == head + (a + (mid + b));
    assert ToString(s) == head + (c + (mid + d));
    DropPrefix(head, a + (mid + b), c + (mid + d));
    NoCommaInInt(r.recordId);
    NoCommaInInt(s.recordId);
    PrefixBeforeComma(a, mid + b, c, mid + d);
    DropPrefix(mid, b, d);
    IntToStringInjective(r.recordId, s.recordId);
    IntToStringInjective(r.recordValue, s.recordValue);
  }

  /** Equal strings with a common prefix have equal remainders. */
  lemma DropPrefix(p: string, x: string, y: string)
    requires p + x == p + y
    ensures x == y
  {
    assert x == (p + x)[|p|..];
    assert y == (p + y)[|p|..];
  }
}
