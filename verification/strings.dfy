/** `strings.Split` with a one-byte separator, and its inverse. */
module Strings {
  import opened GoTypes

  /** The fields of `s` between occurrences of `sep`, as `strings.Split(s, sep)`
      returns them: at least one, and none containing the separator.
      `SplitCount` and `JoinOfSplit` say how many there are and that they
      join back to `s`. */
  function Split(s: seq<byte>, sep: byte): (fields: seq<seq<byte>>)
    ensures |fields| >= 1
    ensures forall i :: 0 <= i < |fields| ==> sep !in fields[i]
    decreases |s|
  {
    if |s| == 0 then [[]]
    else
      var rest := Split(s[1..], sep);
      if s[0] == sep then [[]] + rest
      else
        var fields := [[s[0]] + rest[0]] + rest[1..];
        assert forall i :: 1 <= i < |fields| ==> fields[i] == rest[i];
        fields
  }

  /** The fields separated by `sep`; the empty list joins to the empty string. */
  function Join(fields: seq<seq<byte>>, sep: byte): seq<byte>
    decreases |fields|
  {
    if |fields| == 0 then []
    else if |fields| == 1 then fields[0]
    else fields[0] + [sep] + Join(fields[1..], sep)
  }

  /** One more field than there are separators. */
  lemma {:induction false} SplitCount(s: seq<byte>, sep: byte)
    ensures |Split(s, sep)| == multiset(s)[sep] + 1
    decreases |s|
  {
    if |s| > 0 {
      SplitCount(s[1..], sep);
      assert s == [s[0]] + s[1..];
      assert multiset(s) == multiset([s[0]]) + multiset(s[1..]);
    }
  }

  lemma JoinCons(field: seq<byte>, rest: seq<seq<byte>>, sep: byte)
    requires |rest| >= 1
    ensures Join([field] + rest, sep) == field + [sep] + Join(rest, sep)
  {
    assert ([field] + rest)[1..] == rest;
  }

  lemma JoinOfSplitStep(s: seq<byte>, sep: byte)
    requires |s| > 0 && Join(Split(s[1..], sep), sep) == s[1..]
    ensures Join(Split(s, sep), sep) == s
  {
    var rest := Split(s[1..], sep);
    assert s == [s[0]] + s[1..];
    if s[0] == sep {
      assert Split(s, sep) == [[]] + rest;
      JoinCons([], rest, sep);
    } else if |rest| == 1 {
      assert Split(s, sep) == [[s[0]] + rest[0]];
    } else {
      var tail := rest[1..];
      assert Split(s, sep) == [[s[0]] + rest[0]] + tail;
      assert rest == [rest[0]] + tail;
      JoinCons(rest[0], tail, sep);
      JoinCons([s[0]] + rest[0], tail, sep);
    }
  }

  /** Joining the fields of `s` gives `s` back. */
  lemma {:induction false} JoinOfSplit(s: seq<byte>, sep: byte)
    ensures Join(Split(s, sep), sep) == s
    decreases |s|
  {
    if |s| > 0 {
      JoinOfSplit(s[1..], sep);
      JoinOfSplitStep(s, sep);
    }
  }

  /** A string without the separator is a single field. */
  lemma {:induction false} SplitSingleField(a: seq<byte>, sep: byte)
    requires sep !in a
    ensures Split(a, sep) == [a]
    decreases |a|
  {
    if |a| > 0 {
      assert a[0] != sep && sep !in a[1..];
      SplitSingleField(a[1..], sep);
      assert [a[0]] + a[1..] == a;
    }
  }

  /** A separator-free prefix followed by the separator is split off as the
      first field. */
  lemma {:induction false} SplitAfterField(a: seq<byte>, b: seq<byte>, sep: byte)
    requires sep !in a
    ensures Split(a + [sep] + b, sep) == [a] + Split(b, sep)
    decreases |a|
  {
    var s := a + [sep] + b;
    if |a| == 0 {
      assert s[0] == sep && s[1..] == b;
    } else {
      assert s[0] == a[0] && s[1..] == a[1..] + [sep] + b;
      SplitAfterField(a[1..], b, sep);
      assert [a[0]] + a[1..] == a;
    }
  }

  /** Splitting undoes joining, when no field holds the separator. */
  lemma {:induction false} SplitOfJoin(fields: seq<seq<byte>>, sep: byte)
    requires |fields| >= 1
    requires forall i :: 0 <= i < |fields| ==> sep !in fields[i]
    ensures Split(Join(fields, sep), sep) == fields
    decreases |fields|
  {
    if |fields| == 1 {
      SplitSingleField(fields[0], sep);
    } else {
      SplitOfJoin(fields[1..], sep);
      SplitAfterField(fields[0], Join(fields[1..], sep), sep);
      assert [fields[0]] + fields[1..] == fields;
    }
  }
}
