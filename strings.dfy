/**
 * The JavaScript built-ins the store and the chat handlers use on text:
 * `String.prototype.toLowerCase` (restricted to ASCII), `String.prototype.includes`,
 * `String.prototype.split` with a one-character separator, and
 * `Array.prototype.join` on the pieces. `IndexOf` is not called by the
 * program: it only names "the first space" in the properties of `split`.
 */
module Strings {

  /** `toLowerCase` on one character, for the ASCII letters only. */
  function LowerChar(c: char): char
  {
    if 'A' <= c <= 'Z' then (c as int + 32) as char else c
  }

  predicate IsUpper(c: char)
  {
    'A' <= c <= 'Z'
  }

  /** `String.prototype.toLowerCase`, with ASCII case mapping. */
  function Lower(s: string): (r: string)
    ensures |r| == |s|
    ensures forall i :: 0 <= i < |s| ==> r[i] == LowerChar(s[i])
    ensures forall i :: 0 <= i < |r| ==> !IsUpper(r[i])
    decreases |s|
  {
    if s == [] then [] else [LowerChar(s[0])] + Lower(s[1..])
  }

  /** Lowering twice is lowering once. */
  lemma LowerIdempotent(s: string)
    ensures Lower(Lower(s)) == Lower(s)
  {
    var once := Lower(s);
    assert forall i :: 0 <= i < |once| ==> LowerChar(once[i]) == once[i];
  }

  /** `needle` occurs in `hay` starting at index `k`. */
  predicate OccursAt(hay: string, needle: string, k: nat)
  {
    k + |needle| <= |hay| && hay[k..k + |needle|] == needle
  }

  /**
   * `String.prototype.includes`: scan `hay` from the left for `needle`. It
   * holds exactly when some position of `hay` starts an occurrence of `needle`.
   */
  function Includes(hay: string, needle: string): (b: bool)
    ensures b <==> exists k: nat :: OccursAt(hay, needle, k)
    decreases |hay|
  {
    if |needle| > |hay| then
      assert forall k: nat :: !OccursAt(hay, needle, k);
      false
    else if hay[..|needle|] == needle then
      assert OccursAt(hay, needle, 0);
      true
    else
      ShiftOccurrences(hay, needle);
      Includes(hay[1..], needle)
  }

  /** When `needle` does not start `hay`, its occurrences are those in `hay[1..]`, moved by one. */
  lemma ShiftOccurrences(hay: string, needle: string)
    requires hay != [] && !OccursAt(hay, needle, 0)
    ensures (exists k: nat :: OccursAt(hay, needle, k)) <==> (exists k: nat :: OccursAt(hay[1..], needle, k))
  {
    if exists k: nat :: OccursAt(hay[1..], needle, k) {
      var k: nat :| OccursAt(hay[1..], needle, k);
      assert hay[k + 1..k + 1 + |needle|] == hay[1..][k..k + |needle|];
      assert OccursAt(hay, needle, k + 1);
    }
    if exists k: nat :: OccursAt(hay, needle, k) {
      var k: nat :| OccursAt(hay, needle, k);
      assert k != 0;
      assert hay[1..][k - 1..k - 1 + |needle|] == hay[k..k + |needle|];
      assert OccursAt(hay[1..], needle, k - 1);
    }
  }

  /**
   * The index of the first occurrence of a character known to occur; a
   * specification of "the first separator", not a call the program makes.
   */
  function IndexOf(s: string, c: char): (i: nat)
    requires c in s
    ensures i < |s| && s[i] == c
    ensures c !in s[..i]
    decreases |s|
  {
    if s[0] == c then 0 else 1 + IndexOf(s[1..], c)
  }

  /**
   * `s.split(sep)` for a one-character separator: the pieces between
   * consecutive separators, so there is always one more piece than separators.
   */
  function Split(s: string, sep: char): (parts: seq<string>)
    ensures |parts| >= 1
    ensures forall k :: 0 <= k < |parts| ==> sep !in parts[k]
    decreases |s|
  {
    if s == [] then [""]
    else
      var rest := Split(s[1..], sep);
      if s[0] == sep then [""] + rest
      else [[s[0]] + rest[0]] + rest[1..]
  }

  /**
   * `Array.prototype.join(sep)` on strings: the pieces with one separator
   * between each two. Joining pieces free of the separator and splitting the
   * result gives the pieces back.
   */
  function Join(parts: seq<string>, sep: char): (r: string)
    ensures parts != [] && (forall k :: 0 <= k < |parts| ==> sep !in parts[k]) ==> Split(r, sep) == parts
    decreases |parts|
  {
    if parts == [] then ""
    else if |parts| == 1 then
      SplitAtFirst(parts[0], sep);
      parts[0]
    else
      var tail := Join(parts[1..], sep);
      SplitAfterPiece(parts[0], tail, sep);
      assert parts == [parts[0]] + parts[1..];
      parts[0] + [sep] + tail
  }

  /** A piece free of the separator, then the separator, splits off as the first piece. */
  lemma {:induction false} SplitAfterPiece(p: string, t: string, sep: char)
    ensures sep !in p ==> Split(p + [sep] + t, sep) == [p] + Split(t, sep)
    decreases |p|
  {
    if sep !in p {
      var s := p + [sep] + t;
      if p == [] {
        assert s[0] == sep && s[1..] == t;
      } else {
        assert s[0] == p[0] && s[1..] == p[1..] + [sep] + t;
        assert sep !in p[1..];
        SplitAfterPiece(p[1..], t, sep);
        assert [p[0]] + p[1..] == p;
      }
    }
  }

  /** Joining the pieces of a split with the same separator gives the string back. */
  lemma {:induction false} JoinSplit(s: string, sep: char)
    ensures Join(Split(s, sep), sep) == s
    decreases |s|
  {
    if s != [] {
      var rest := Split(s[1..], sep);
      JoinSplit(s[1..], sep);
      if s[0] == sep {
        assert Split(s, sep) == [""] + rest;
        JoinAfterEmpty(rest, sep);
      } else {
        assert Split(s, sep) == [[s[0]] + rest[0]] + rest[1..];
        JoinPrepend(s[0], rest, sep);
      }
      assert s == [s[0]] + s[1..];
    }
  }

  /** An empty first piece contributes only its separator to a join. */
  lemma JoinAfterEmpty(parts: seq<string>, sep: char)
    requires parts != []
    ensures Join([""] + parts, sep) == [sep] + Join(parts, sep)
  {
    assert ([""] + parts)[1..] == parts;
  }

  /** A character put in front of the first piece comes first in the join. */
  lemma JoinPrepend(c: char, parts: seq<string>, sep: char)
    requires parts != []
    ensures Join([[c] + parts[0]] + parts[1..], sep) == [c] + Join(parts, sep)
  {
    var q := [[c] + parts[0]] + parts[1..];
    assert q[1..] == parts[1..];
  }

  /**
   * The first piece of a split is everything before the first separator, and
   * the remaining pieces are the split of everything after it; with no
   * separator the split is the whole string.
   */
  lemma {:induction false} SplitAtFirst(s: string, sep: char)
    ensures sep !in s ==> Split(s, sep) == [s]
    ensures sep in s ==>
      var i := IndexOf(s, sep);
      Split(s, sep)[0] == s[..i] && Split(s, sep)[1..] == Split(s[i + 1..], sep)
    decreases |s|
  {
    if s != [] {
      SplitAtFirst(s[1..], sep);
      var rest := Split(s[1..], sep);
      if s[0] == sep {
        assert IndexOf(s, sep) == 0;
        assert ([""] + rest)[1..] == rest;
      } else {
        assert sep in s ==> sep in s[1..];
        if sep !in s {
          assert sep !in s[1..];
          assert rest == [s[1..]];
          assert [s[0]] + s[1..] == s;
        }
        assert sep in s ==> IndexOf(s, sep) == 1 + IndexOf(s[1..], sep);
        assert sep in s ==> s[IndexOf(s, sep) + 1..] == s[1..][IndexOf(s[1..], sep) + 1..];
        assert sep in s ==> s[..IndexOf(s, sep)] == [s[0]] + s[1..][..IndexOf(s[1..], sep)];
      }
    }
  }
}
