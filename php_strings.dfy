/** The PHP string built-ins the column manager relies on: explode, implode,
    strpos used as a containment test, and the two ways a namespaced class
    name is shortened (its last `\` segment, or everything after its first). */
module PhpStrings {

  /** The namespace separator of PHP class names. */
  const Backslash: char := '\\'

  /** explode($sep, $s) for a one-character separator. Splitting the empty
      string gives one empty part, never an empty list. */
  function Explode(sep: char, s: string): (parts: seq<string>)
    ensures |parts| >= 1
    ensures forall i :: 0 <= i < |parts| ==> sep !in parts[i]
    decreases |s|
  {
    if s == [] then [""]
    else
      var rest := Explode(sep, s[1..]);
      if s[0] == sep then [""] + rest
      else [[s[0]] + rest[0]] + rest[1..]
  }

  /** implode($sep, $parts). */
  function Implode(sep: char, parts: seq<string>): string
  {
    if parts == [] then ""
    else if |parts| == 1 then parts[0]
    else parts[0] + [sep] + Implode(sep, parts[1..])
  }

  /** Joining the parts of a split gives back the string that was split. */
  lemma {:induction false} ImplodeExplode(sep: char, s: string)
    ensures Implode(sep, Explode(sep, s)) == s
    decreases |s|
  {
    if s != [] {
      var rest := Explode(sep, s[1..]);
      ImplodeExplode(sep, s[1..]);
      assert s == [s[0]] + s[1..];
      if s[0] == sep {
        assert ([""] + rest)[1..] == rest;
      } else {
        var parts := Explode(sep, s);
        if |rest| > 1 {
          assert parts[1..] == rest[1..];
        }
      }
    }
  }

  /** A split yields a single part exactly when the separator does not occur,
      and that part is then the whole string. */
  lemma ExplodeSingle(sep: char, s: string)
    ensures |Explode(sep, s)| == 1 <==> sep !in s
    ensures sep !in s ==> Explode(sep, s) == [s]
  {
    ImplodeExplode(sep, s);
    var parts := Explode(sep, s);
    if |parts| > 1 {
      assert s == parts[0] + [sep] + Implode(sep, parts[1..]);
      assert s[|parts[0]|] == sep;
    }
  }

  /** Splitting `a sep b`, where `a` holds no separator, gives `a` and then the split of `b`. */
  lemma {:induction false} ExplodeJoin(sep: char, a: string, b: string)
    requires sep !in a
    ensures Explode(sep, a + [sep] + b) == [a] + Explode(sep, b)
    decreases |a|
  {
    var s := a + [sep] + b;
    if a == [] {
      assert s[1..] == b;
    } else {
      assert s[1..] == a[1..] + [sep] + b;
      ExplodeJoin(sep, a[1..], b);
      assert [a[0]] + a[1..] == a;
    }
  }

  /** Splitting the join of separator-free parts gives back those parts. */
  lemma {:induction false} ExplodeImplode(sep: char, parts: seq<string>)
    requires |parts| >= 1
    requires forall i :: 0 <= i < |parts| ==> sep !in parts[i]
    ensures Explode(sep, Implode(sep, parts)) == parts
    decreases |parts|
  {
    if |parts| == 1 {
      ExplodeSingle(sep, parts[0]);
    } else {
      ExplodeImplode(sep, parts[1..]);
      ExplodeJoin(sep, parts[0], Implode(sep, parts[1..]));
      assert [parts[0]] + parts[1..] == parts;
    }
  }

  /** end(explode('\\', $s)): the text after the last backslash. */
  function LastSegment(s: string): string
  {
    var parts := Explode(Backslash, s);
    parts[|parts| - 1]
  }

  /** The last segment is the backslash-free suffix of `s` that is either all
      of `s` or preceded by a backslash, which is what makes it the LAST one. */
  lemma {:induction false} LastSegmentIsSuffix(s: string)
    ensures Backslash !in LastSegment(s)
    ensures |LastSegment(s)| <= |s| && s[|s| - |LastSegment(s)|..] == LastSegment(s)
    ensures |LastSegment(s)| == |s| || s[|s| - |LastSegment(s)| - 1] == Backslash
    decreases |s|
  {
    if s != [] {
      var t := s[1..];
      var rest := Explode(Backslash, t);
      LastSegmentIsSuffix(t);
      var l := LastSegment(t);
      assert l == rest[|rest| - 1];
      if s[0] != Backslash && |rest| == 1 {
        ExplodeSingle(Backslash, t);
        assert LastSegment(s) == s;
      } else {
        if |l| == |t| {
          assert l == t;
          ExplodeSingle(Backslash, t);
        }
        assert LastSegment(s) == l;
      }
    }
  }

  /** The last segment of `a\b` is `b` when `b` holds no backslash. */
  lemma LastSegmentOfJoin(a: string, b: string)
    requires Backslash !in b
    ensures LastSegment(a + [Backslash] + b) == b
  {
    var s := a + [Backslash] + b;
    LastSegmentIsSuffix(s);
    assert s[|s| - |b| - 1] == Backslash;
    assert s[|s| - |b|..] == b;
  }

  /** explode('\\', $s)[0]: the text before the first backslash. */
  function FirstSegment(s: string): string
  {
    Explode(Backslash, s)[0]
  }

  /** unset($parts[0]) followed by implode('\\', $parts): drop the first segment only. */
  function DropFirstSegment(s: string): string
  {
    Implode(Backslash, Explode(Backslash, s)[1..])
  }

  /** Dropping the first segment removes exactly the text up to and including
      the first backslash; every later segment survives. */
  lemma DropFirstSegmentSplits(s: string)
    ensures Backslash !in FirstSegment(s)
    ensures Backslash in s ==> s == FirstSegment(s) + [Backslash] + DropFirstSegment(s)
    ensures Backslash !in s ==> DropFirstSegment(s) == ""
  {
    var parts := Explode(Backslash, s);
    ExplodeSingle(Backslash, s);
    ImplodeExplode(Backslash, s);
  }

  /** `needle` occurs in `s` starting at index `i`. */
  predicate OccursAt(s: string, needle: string, i: int)
  {
    0 <= i && i + |needle| <= |s| && s[i..i + |needle|] == needle
  }

  /** strpos($s, $needle) !== false. */
  predicate Contains(s: string, needle: string)
    decreases |s|
  {
    |needle| <= |s| && (s[..|needle|] == needle || (|s| > 0 && Contains(s[1..], needle)))
  }

  /** Containment holds exactly when the needle occurs at some index. */
  lemma {:induction false} ContainsIff(s: string, needle: string)
    ensures Contains(s, needle) <==> exists i :: OccursAt(s, needle, i)
    decreases |s|
  {
    if Contains(s, needle) {
      if s[..|needle|] == needle {
        assert OccursAt(s, needle, 0);
      } else {
        ContainsIff(s[1..], needle);
        var i :| OccursAt(s[1..], needle, i);
        assert s[i + 1..i + 1 + |needle|] == s[1..][i..i + |needle|];
        assert OccursAt(s, needle, i + 1);
      }
    } else if i :| OccursAt(s, needle, i) {
      if i > 0 {
        assert s[1..][i - 1..i - 1 + |needle|] == s[i..i + |needle|];
        assert OccursAt(s[1..], needle, i - 1);
        ContainsIff(s[1..], needle);
      }
    }
  }
}
