/** The string operations the URL parser, the query-string parser and the
    transcript join are built from. Each function stands for one Python
    `str` method and its contract states what that method promises. */
module Text {
  import opened Wrappers

  /** An optional string Python counts as true: present and non-empty (a
      video identifier, a transcript). */
  predicate IsTruthy(s: Option<string>)
  {
    s.Some? && s.value != ""
  }

  /** The first index at or after `from` whose character is in `cs`, or None
      when there is none (`str.find`, generalised to a set of characters). */
  function FindAnyFrom(s: string, cs: set<char>, from: nat): (r: Option<nat>)
    decreases |s| - from
    ensures r.Some? ==> from <= r.value < |s| && s[r.value] in cs
    ensures r.Some? ==> forall k :: from <= k < r.value ==> s[k] !in cs
    ensures r.None? <==> forall k :: from <= k < |s| ==> s[k] !in cs
  {
    if from >= |s| then None
    else if s[from] in cs then Some(from)
    else FindAnyFrom(s, cs, from + 1)
  }

  /** `s.find(c)`: the first occurrence of `c`. */
  function Find(s: string, c: char): (r: Option<nat>)
    ensures r.Some? ==> r.value < |s| && s[r.value] == c && c !in s[..r.value]
    ensures r.None? <==> c !in s
  {
    FindAnyFrom(s, {c}, 0)
  }

  /** `s.rfind(c)`: the last occurrence of `c`. */
  function RFind(s: string, c: char): (r: Option<nat>)
    ensures r.Some? ==> r.value < |s| && s[r.value] == c && c !in s[r.value + 1..]
    ensures r.None? <==> c !in s
  {
    if |s| == 0 then None
    else if s[|s| - 1] == c then Some(|s| - 1)
    else
      var r := RFind(s[..|s| - 1], c);
      assert s == s[..|s| - 1] + [s[|s| - 1]];
      r
  }

  /** `s.split(c, 1)` read as a partition: the text before the first `c` and
      the text after it, or None when `c` does not occur. */
  function Cut(s: string, c: char): (r: Option<(string, string)>)
    ensures r.Some? ==> s == r.value.0 + [c] + r.value.1 && c !in r.value.0
    ensures r.None? <==> c !in s
  {
    match Find(s, c)
    case None => None
    case Some(i) =>
      assert s == s[..i] + [c] + s[i + 1..];
      Some((s[..i], s[i + 1..]))
  }

  /** A partition around the first `c` is unique, so `Cut` finds it. */
  lemma CutAt(a: string, c: char, b: string)
    requires c !in a
    ensures Cut(a + [c] + b, c) == Some((a, b))
  {
    var s := a + [c] + b;
    assert s[|a|] == c;
    var r := Cut(s, c);
    var (a', b') := r.value;
    assert |a'| == |a| by {
      if |a'| < |a| {
        assert false;
      } else if |a'| > |a| {
        assert false;
      }
    }
    assert a' == s[..|a|] == a;
    assert b' == s[|a| + 1..] == b;
  }

  /** `sep.join(parts)`. */
  function Join(parts: seq<string>, sep: string): (r: string)
  {
    if |parts| == 0 then ""
    else if |parts| == 1 then parts[0]
    else parts[0] + sep + Join(parts[1..], sep)
  }

  /** `s.split(c)`: the pieces between occurrences of `c`, in order. */
  function Split(s: string, c: char): (r: seq<string>)
    decreases |s|
    ensures |r| >= 1
    ensures forall i :: 0 <= i < |r| ==> c !in r[i]
  {
    match Cut(s, c)
    case None => [s]
    case Some((a, b)) => [a] + Split(b, c)
  }

  /** Joining the pieces of a split with the separator gives back the text. */
  lemma {:induction false} JoinSplit(s: string, c: char)
    decreases |s|
    ensures Join(Split(s, c), [c]) == s
  {
    match Cut(s, c)
    case None =>
    case Some((a, b)) =>
      JoinSplit(b, c);
      var rest := Split(b, c);
      assert Split(s, c) == [a] + rest;
      assert ([a] + rest)[1..] == rest;
  }

  /** Splitting a join undoes it when no piece contains the separator. */
  lemma {:induction false} SplitJoin(parts: seq<string>, c: char)
    requires |parts| >= 1
    requires forall i :: 0 <= i < |parts| ==> c !in parts[i]
    ensures Split(Join(parts, [c]), c) == parts
  {
    if |parts| > 1 {
      SplitJoin(parts[1..], c);
      CutAt(parts[0], c, Join(parts[1..], [c]));
      assert parts == [parts[0]] + parts[1..];
    } else {
      assert Cut(parts[0], c).None?;
    }
  }

  /** Splitting at a first separator puts the text before it in front of the
      split of the rest. */
  lemma SplitCons(a: string, c: char, b: string)
    requires c !in a
    ensures Split(a + [c] + b, c) == [a] + Split(b, c)
  {
    CutAt(a, c, b);
  }

  /** Total length of the pieces. */
  function TotalLength(parts: seq<string>): (r: nat)
  {
    if |parts| == 0 then 0 else |parts[0]| + TotalLength(parts[1..])
  }

  /** A join is as long as its pieces plus one separator between each two. */
  lemma {:induction false} JoinLength(parts: seq<string>, sep: string)
    ensures |parts| >= 1 ==> |Join(parts, sep)| == TotalLength(parts) + (|parts| - 1) * |sep|
    ensures |parts| == 0 ==> Join(parts, sep) == ""
  {
    if |parts| > 1 {
      JoinLength(parts[1..], sep);
    }
  }

  /** Where the `k`-th piece starts in a join: the pieces before it and one
      separator after each of them. */
  function Offset(parts: seq<string>, sep: string, k: nat): (r: nat)
    requires k <= |parts|
  {
    TotalLength(parts[..k]) + k * |sep|
  }

  /** The `k`-th piece of a join sits at its offset, followed by the
      separator unless it is the last. */
  predicate PlacedAt(parts: seq<string>, sep: string, k: nat)
    requires k < |parts|
  {
    var o := Offset(parts, sep, k);
    var j := Join(parts, sep);
    && o + |parts[k]| <= |j| && j[o..o + |parts[k]|] == parts[k]
    && (k < |parts| - 1 ==> o + |parts[k]| + |sep| <= |j| && j[o + |parts[k]|..o + |parts[k]| + |sep|] == sep)
  }

  /** Every piece of a join sits at its offset, followed by the separator
      unless it is the last: the join keeps each piece whole and in order,
      whatever characters the pieces hold. */
  lemma {:induction false} JoinPlaces(parts: seq<string>, sep: string, k: nat)
    requires k < |parts|
    ensures Offset(parts, sep, k) + |parts[k]| <= |Join(parts, sep)|
    ensures Join(parts, sep)[Offset(parts, sep, k)..Offset(parts, sep, k) + |parts[k]|] == parts[k]
    ensures k < |parts| - 1 ==>
      && Offset(parts, sep, k) + |parts[k]| + |sep| <= |Join(parts, sep)|
      && Join(parts, sep)[Offset(parts, sep, k) + |parts[k]|..Offset(parts, sep, k) + |parts[k]| + |sep|] == sep
  {
    if k == 0 {
      FirstPlaced(parts, sep);
    } else {
      JoinPlaces(parts[1..], sep, k - 1);
      LaterPlaced(parts, sep, k);
    }
  }

  lemma FirstPlaced(parts: seq<string>, sep: string)
    requires 0 < |parts|
    ensures PlacedAt(parts, sep, 0)
  {
    assert parts[..0] == [];
    if |parts| > 1 {
      assert Join(parts, sep) == parts[0] + sep + Join(parts[1..], sep);
    }
  }

  lemma LaterPlaced(parts: seq<string>, sep: string, k: nat)
    requires 0 < k < |parts|
    requires PlacedAt(parts[1..], sep, k - 1)
    ensures PlacedAt(parts, sep, k)
  {
    OffsetCons(parts, sep, k);
    var head := parts[0] + sep;
    var rest := Join(parts[1..], sep);
    var o := Offset(parts[1..], sep, k - 1);
    var n := |parts[k]|;
    assert Join(parts, sep) == head + rest;
    assert parts[1..][k - 1] == parts[k];
    SliceAfter(head, rest, o, n);
    if k < |parts| - 1 {
      SliceAfter(head, rest, o + n, |sep|);
    }
  }

  lemma OffsetCons(parts: seq<string>, sep: string, k: nat)
    requires 0 < k <= |parts|
    ensures Offset(parts, sep, k) == |parts[0]| + |sep| + Offset(parts[1..], sep, k - 1)
  {
    assert parts[..k][1..] == parts[1..][..k - 1];
    assert k * |sep| == |sep| + (k - 1) * |sep|;
  }

  lemma SliceAfter(a: string, b: string, i: nat, n: nat)
    requires i + n <= |b|
    ensures (a + b)[|a| + i..|a| + i + n] == b[i..i + n]
  {
  }

  /** `s.lstrip(chars)`: `s` without its longest prefix of characters in `cs`. */
  function LStrip(s: string, cs: set<char>): (r: string)
    ensures |r| <= |s| && r == s[|s| - |r|..]
    ensures forall k :: 0 <= k < |s| - |r| ==> s[k] in cs
    ensures r == [] || r[0] !in cs
  {
    if |s| > 0 && s[0] in cs then LStrip(s[1..], cs) else s
  }

  /** `s` with every character of `cs` deleted (a chain of
      `s.replace(c, "")`). */
  function Remove(s: string, cs: set<char>): (r: string)
    ensures forall k :: 0 <= k < |r| ==> r[k] !in cs
    ensures (forall k :: 0 <= k < |s| ==> s[k] !in cs) ==> r == s
  {
    if |s| == 0 then ""
    else
      assert s == [s[0]] + s[1..];
      (if s[0] in cs then "" else [s[0]]) + Remove(s[1..], cs)
  }

  /** Deleting keeps every other character, as often as it occurs. */
  lemma {:induction false} RemoveKeeps(s: string, cs: set<char>, x: char)
    requires x !in cs
    ensures multiset(Remove(s, cs))[x] == multiset(s)[x]
  {
    if |s| > 0 {
      var head := if s[0] in cs then "" else [s[0]];
      RemoveKeeps(s[1..], cs, x);
      assert s == [s[0]] + s[1..];
      assert Remove(s, cs) == head + Remove(s[1..], cs);
      assert multiset(Remove(s, cs)) == multiset(head) + multiset(Remove(s[1..], cs));
      assert multiset(s) == multiset([s[0]]) + multiset(s[1..]);
      assert multiset(head)[x] == multiset([s[0]])[x];
    }
  }

  /** Deleting works piece by piece: what is kept of `a + b` is what is kept
      of `a` followed by what is kept of `b`, so the kept characters stay in
      order. */
  lemma {:induction false} RemoveConcat(a: string, b: string, cs: set<char>)
    ensures Remove(a + b, cs) == Remove(a, cs) + Remove(b, cs)
  {
    if |a| > 0 {
      var head := if a[0] in cs then "" else [a[0]];
      RemoveConcat(a[1..], b, cs);
      assert (a + b)[1..] == a[1..] + b;
      assert (a + b)[0] == a[0];
      assert Remove(a + b, cs) == head + Remove(a[1..] + b, cs);
    } else {
      assert a + b == b;
    }
  }

  /** A deleted character might as well never have been there. */
  lemma RemoveDropsOne(a: string, c: char, b: string, cs: set<char>)
    requires c in cs
    ensures Remove(a + [c] + b, cs) == Remove(a + b, cs)
  {
    assert Remove([c], cs) == "" by {
      assert [c][1..] == [];
    }
    calc {
      Remove(a + [c] + b, cs);
      { RemoveConcat(a + [c], b, cs); }
      Remove(a + [c], cs) + Remove(b, cs);
      { RemoveConcat(a, [c], cs); }
      Remove(a, cs) + Remove(b, cs);
      { RemoveConcat(a, b, cs); }
      Remove(a + b, cs);
    }
  }

  /** Stripping a prefix of characters from `cs` that is followed by text
      starting outside `cs` leaves exactly that text. */
  lemma {:induction false} LStripPad(pad: string, s: string, cs: set<char>)
    requires forall k :: 0 <= k < |pad| ==> pad[k] in cs
    requires s == [] || s[0] !in cs
    ensures LStrip(pad + s, cs) == s
  {
    if |pad| > 0 {
      assert (pad + s)[0] == pad[0];
      assert (pad + s)[1..] == pad[1..] + s;
      LStripPad(pad[1..], s, cs);
    } else {
      assert pad + s == s;
    }
  }

  /** `s.replace(a, b)` for single characters. */
  function ReplaceChar(s: string, a: char, b: char): (r: string)
    ensures |r| == |s|
    ensures forall k :: 0 <= k < |s| ==> r[k] == if s[k] == a then b else s[k]
  {
    seq(|s|, k requires 0 <= k < |s| => if s[k] == a then b else s[k])
  }

  predicate IsUpperAscii(c: char)
  {
    'A' <= c <= 'Z'
  }

  /** `s.lower()` for text whose letters are ASCII. */
  function LowerAscii(s: string): (r: string)
    ensures |r| == |s|
    ensures forall k :: 0 <= k < |s| ==> !IsUpperAscii(r[k])
    ensures forall k :: 0 <= k < |s| && !IsUpperAscii(s[k]) ==> r[k] == s[k]
  {
    seq(|s|, k requires 0 <= k < |s| =>
      if IsUpperAscii(s[k]) then (s[k] as int - 'A' as int + 'a' as int) as char else s[k])
  }
}
