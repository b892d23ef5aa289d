/** File names of ordinary-log segments (ownedSegmentOccurredAt in operational-diagnostics.ts). */
module SegmentNames {
  import opened Common
  import opened Text

  const PREFIX := "ordinary-"
  const SUFFIX := ".jsonl"
  const MAXIMUM_SAFE_INTEGER: nat := 9007199254740991

  predicate SafeSegmentId(id: string) {
    |id| == 32 && forall i :: 0 <= i < 32 ==> Digit(id[i]) || 'a' <= id[i] <= 'f'
  }

  function SegmentName(occurredAt: nat, id: string): string {
    PREFIX + Decimal(occurredAt) + "-" + id + SUFFIX
  }

  predicate Enclosed(name: string) {
    |name| >= |PREFIX| + |SUFFIX| && name[..|PREFIX|] == PREFIX && name[|name| - |SUFFIX|..] == SUFFIX
  }

  function Identity(name: string): string
    requires Enclosed(name)
  {
    name[|PREFIX|..|name| - |SUFFIX|]
  }

  function OwnedSegmentTime(name: string): Option<nat> {
    if !Enclosed(name) then None
    else
      var parts := Split(Identity(name), '-');
      if |parts| == 2 && CanonicalDecimal(parts[0]) && DecimalValue(parts[0]) <= MAXIMUM_SAFE_INTEGER && SafeSegmentId(parts[1])
      then Some(DecimalValue(parts[0]))
      else None
  }

  lemma IdentityOfName(occurredAt: nat, id: string)
    ensures Enclosed(SegmentName(occurredAt, id))
    ensures Identity(SegmentName(occurredAt, id)) == Decimal(occurredAt) + ['-'] + id
  {
    hide Decimal;
    var body := Decimal(occurredAt) + ['-'] + id;
    assert SegmentName(occurredAt, id) == PREFIX + body + SUFFIX;
  }

  lemma SplitOfParts(digits: string, id: string)
    requires Digits(digits) && SafeSegmentId(id)
    ensures Split(digits + ['-'] + id, '-') == [digits, id]
  {
    hide Split;
    SplitFirst(digits, id, '-');
    SplitFirst(id, "", '-');
  }

  /** A name the log gives to a segment is recognised, with its time. */
  lemma NameIsOwned(occurredAt: nat, id: string)
    requires occurredAt <= MAXIMUM_SAFE_INTEGER && SafeSegmentId(id)
    ensures OwnedSegmentTime(SegmentName(occurredAt, id)) == Some(occurredAt)
  {
    hide Decimal, Enclosed, Identity, SegmentName, Split, DecimalValue;
    IdentityOfName(occurredAt, id);
    DecimalReads(occurredAt);
    SplitOfParts(Decimal(occurredAt), id);
  }

  /** Only such names are recognised. */
  lemma OwnedIsName(name: string)
    requires OwnedSegmentTime(name).Some?
    ensures exists id :: SafeSegmentId(id) && name == SegmentName(OwnedSegmentTime(name).value, id)
  {
    hide Decimal, Split, DecimalValue;
    var parts := Split(Identity(name), '-');
    JoinSplit(Identity(name), '-');
    CanonicalIsDecimal(parts[0]);
    JoinOfTwo(parts);
    assert name == PREFIX + Identity(name) + SUFFIX;
    assert name == SegmentName(DecimalValue(parts[0]), parts[1]);
  }

  lemma JoinOfTwo(parts: seq<string>)
    requires |parts| == 2
    ensures Join(parts, '-') == parts[0] + ['-'] + parts[1]
  {
    assert Join(parts[1..], '-') == parts[1];
  }
}
