/** The JavaScript string primitives the script relies on, over `seq<char>`:
    `includes`, `indexOf`, `split` with a non-empty string separator, and
    `replace` with a global one-character pattern. */
module Strings {
  import opened Common

  /** `sub` occurs in `s` starting at position `i`. */
  predicate OccursAt(s: string, sub: string, i: int) {
    0 <= i && i + |sub| <= |s| && s[i..i + |sub|] == sub
  }

  /** `s.includes(sub)`. */
  predicate Contains(s: string, sub: string) {
    exists i | 0 <= i <= |s| :: OccursAt(s, sub, i)
  }

  /** `s.indexOf(sub, from)`: the first occurrence at or after `from`. */
  function IndexOfFrom(s: string, sub: string, from: nat): (r: Option<nat>)
    requires from <= |s|
    ensures r.Some? ==> from <= r.value <= |s| && OccursAt(s, sub, r.value)
    ensures r.Some? ==> forall j | from <= j < r.value :: !OccursAt(s, sub, j)
    ensures r.None? ==> forall j | from <= j <= |s| :: !OccursAt(s, sub, j)
    decreases |s| - from
  {
    if OccursAt(s, sub, from) then Some(from)
    else if from == |s| then None
    else IndexOfFrom(s, sub, from + 1)
  }

  /** `s.indexOf(sub)`. */
  function IndexOf(s: string, sub: string): (r: Option<nat>)
    ensures r.Some? ==> OccursAt(s, sub, r.value)
    ensures r.Some? ==> forall j | 0 <= j < r.value :: !OccursAt(s, sub, j)
    ensures r.None? <==> !Contains(s, sub)
  {
    IndexOfFrom(s, sub, 0)
  }

  /** The inverse of `split`: `parts.join(sep)`. */
  function Join(parts: seq<string>, sep: string): string
    requires |parts| > 0
  {
    if |parts| == 1 then parts[0] else parts[0] + sep + Join(parts[1..], sep)
  }

  /** `s.split(sep)` for a non-empty separator: cut at every occurrence,
      scanning left to right and never reusing the characters of a match. */
  function Split(s: string, sep: string): (parts: seq<string>)
    requires |sep| > 0
    ensures |parts| > 0
    ensures Join(parts, sep) == s
    ensures forall k | 0 <= k < |parts| :: !Contains(parts[k], sep)
    ensures parts == [s] <==> !Contains(s, sep)
    ensures forall k | 0 <= k < |parts| - 1 :: IndexOf(parts[k] + sep, sep) == Some(|parts[k]|)
    decreases |s|
  {
    match IndexOf(s, sep)
    case None => [s]
    case Some(i) =>
      var tail := Split(s[i + |sep|..], sep);
      SplitAtFirst(s, sep, i, tail);
      [s[..i]] + tail
  }

  /** One step of `Split`: the text before the first separator, followed by
      the pieces of the text after it. */
  lemma SplitAtFirst(s: string, sep: string, i: nat, tail: seq<string>)
    requires |sep| > 0
    requires OccursAt(s, sep, i)
    requires forall j | 0 <= j < i :: !OccursAt(s, sep, j)
    requires |tail| > 0 && Join(tail, sep) == s[i + |sep|..]
    requires forall k | 0 <= k < |tail| :: !Contains(tail[k], sep)
    requires forall k | 0 <= k < |tail| - 1 :: IndexOf(tail[k] + sep, sep) == Some(|tail[k]|)
    ensures Join([s[..i]] + tail, sep) == s
    ensures forall k | 0 <= k < |[s[..i]] + tail| :: !Contains(([s[..i]] + tail)[k], sep)
    ensures Contains(s, sep)
    ensures forall k | 0 <= k < |[s[..i]] + tail| - 1 ::
              IndexOf(([s[..i]] + tail)[k] + sep, sep) == Some(|([s[..i]] + tail)[k]|)
  {
    var rest := s[i + |sep|..];
    PrefixBeforeFirstOccurrence(s, sep, i);
    FirstOccurrenceEndsPrefix(s, sep, i);
    PiecesEndAtSeparator(s[..i], tail, sep);
    assert s == s[..i] + sep + rest;
    assert ([s[..i]] + tail)[1..] == tail;
    assert Join([s[..i]] + tail, sep) == s[..i] + sep + Join(tail, sep);
    assert OccursAt(s, sep, i);
  }

  /** What `includes` answers: the empty pattern is in every text, a text
      contains its prefixes and never a longer pattern, and `includes`
      agrees with `indexOf` finding a position. */
  lemma ContainsFacts(s: string, sub: string)
    ensures Contains(s, sub) ==> |sub| <= |s|
    ensures sub <= s ==> Contains(s, sub)
    ensures Contains(s, sub) <==> IndexOf(s, sub).Some?
  {
    if sub <= s {
      assert OccursAt(s, sub, 0);
    }
  }

  /** The text before the first occurrence of `sub` does not contain `sub`. */
  lemma PrefixBeforeFirstOccurrence(s: string, sub: string, i: nat)
    requires |sub| > 0
    requires OccursAt(s, sub, i)
    requires forall j | 0 <= j < i :: !OccursAt(s, sub, j)
    ensures !Contains(s[..i], sub)
  {
    forall j | 0 <= j <= i
      ensures !OccursAt(s[..i], sub, j)
    {
      if OccursAt(s[..i], sub, j) {
        assert s[..i][j..j + |sub|] == s[j..j + |sub|];
        assert OccursAt(s, sub, j);
      }
    }
  }

  /** Cutting `s` just after the first occurrence of `sub` keeps that
      occurrence first: each piece of `split` but the last, followed by
      the separator, finds the separator exactly at its end. */
  lemma FirstOccurrenceEndsPrefix(s: string, sub: string, i: nat)
    requires OccursAt(s, sub, i)
    requires forall j | 0 <= j < i :: !OccursAt(s, sub, j)
    ensures IndexOf(s[..i] + sub, sub) == Some(i)
  {
    var t := s[..i] + sub;
    assert t == s[..i + |sub|];
    assert OccursAt(t, sub, i);
    var r := IndexOf(t, sub);
    assert r.Some? by { assert Contains(t, sub); }
    if r.value < i {
      assert t[r.value..r.value + |sub|] == s[r.value..r.value + |sub|];
      assert OccursAt(s, sub, r.value);
    }
  }

  /** Prepending a piece that ends at its first separator keeps every
      piece but the last ending at its first separator. */
  lemma PiecesEndAtSeparator(head: string, tail: seq<string>, sep: string)
    requires IndexOf(head + sep, sep) == Some(|head|)
    requires forall k | 0 <= k < |tail| - 1 :: IndexOf(tail[k] + sep, sep) == Some(|tail[k]|)
    ensures forall k | 0 <= k < |[head] + tail| - 1 ::
              IndexOf(([head] + tail)[k] + sep, sep) == Some(|([head] + tail)[k]|)
  {
    var pieces := [head] + tail;
    assert pieces[0] == head;
    forall k | 1 <= k < |pieces| - 1
      ensures IndexOf(pieces[k] + sep, sep) == Some(|pieces[k]|)
    {
      assert pieces[k] == tail[k - 1];
    }
  }

  /** A text lacking one of the characters of `sub` cannot contain `sub`. */
  lemma MissingCharExcludes(s: string, sub: string, c: char)
    requires c in sub && c !in s
    ensures !Contains(s, sub)
  {
  }

  /** The character-by-character rewrite behind `ReplaceAll`. */
  function Replaced(s: string, c: char, repl: string): string {
    if |s| == 0 then ""
    else (if s[0] == c then repl else [s[0]]) + Replaced(s[1..], c, repl)
  }

  /** `s.replace(/c/g, repl)`: every `c` replaced by the text `repl`. */
  function ReplaceAll(s: string, c: char, repl: string): (r: string)
    ensures c !in repl ==> c !in r
    ensures forall d | d in r :: d in s || d in repl
    ensures forall k | 0 <= k < |s| :: s[k] != c ==> s[k] in r
  {
    ReplacedCharacters(s, c, repl);
    Replaced(s, c, repl)
  }

  /** Every character of the rewrite comes from the text or from `repl`,
      and every other character of the text survives. */
  lemma {:induction false} ReplacedCharacters(s: string, c: char, repl: string)
    ensures c !in repl ==> c !in Replaced(s, c, repl)
    ensures forall d | d in Replaced(s, c, repl) :: d in s || d in repl
    ensures forall k | 0 <= k < |s| :: s[k] != c ==> s[k] in Replaced(s, c, repl)
    decreases |s|
  {
    if |s| > 0 {
      var h := if s[0] == c then repl else [s[0]];
      var rest := Replaced(s[1..], c, repl);
      ReplacedCharacters(s[1..], c, repl);
      assert Replaced(s, c, repl) == h + rest;
      forall d | d in h + rest
        ensures d in s || d in repl
      {
        if d in rest {
          assert d in s[1..] || d in repl;
        }
      }
      forall k | 0 <= k < |s| && s[k] != c
        ensures s[k] in h + rest
      {
        if k > 0 {
          assert s[k] == s[1..][k - 1];
        }
      }
    }
  }

  /** A one-character text is rewritten exactly when it is the pattern. */
  lemma ReplaceAllOfOne(d: char, c: char, repl: string)
    ensures ReplaceAll([d], c, repl) == if d == c then repl else [d]
  {
    assert [d][1..] == [];
    assert Replaced([d], c, repl) == (if d == c then repl else [d]) + Replaced([], c, repl);
  }

  /** Replacing in a concatenation replaces in each half. */
  lemma {:induction false} ReplaceAllAppend(a: string, b: string, c: char, repl: string)
    ensures ReplaceAll(a + b, c, repl) == ReplaceAll(a, c, repl) + ReplaceAll(b, c, repl)
    decreases |a|
  {
    if |a| > 0 {
      var h := if a[0] == c then repl else [a[0]];
      assert (a + b)[0] == a[0];
      assert (a + b)[1..] == a[1..] + b;
      assert Replaced(a + b, c, repl) == h + Replaced(a[1..] + b, c, repl);
      assert Replaced(a, c, repl) == h + Replaced(a[1..], c, repl);
      ReplaceAllAppend(a[1..], b, c, repl);
    } else {
      assert a + b == b;
    }
  }

  /** Replacing a character that does not occur changes nothing. */
  lemma {:induction false} ReplaceAllAbsent(s: string, c: char, repl: string)
    requires c !in s
    ensures ReplaceAll(s, c, repl) == s
    decreases |s|
  {
    if |s| > 0 {
      assert s[0] != c;
      assert Replaced(s, c, repl) == [s[0]] + Replaced(s[1..], c, repl);
      assert c !in s[1..];
      ReplaceAllAbsent(s[1..], c, repl);
      assert s == [s[0]] + s[1..];
    }
  }
}
