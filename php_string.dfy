/**
 * The PHP string built-ins the catalog adapter relies on: `strpos` (first
 * occurrence of a needle) and `explode` (split on a delimiter), with
 * `implode` as explode's inverse.  Strings are sequences of characters.
 */
module PhpString {
  import opened Wrappers

  /** `needle` occurs in `haystack` starting at index `j`. */
  predicate OccursAt(haystack: string, needle: string, j: int)
  {
    0 <= j && j + |needle| <= |haystack| && haystack[j..j + |needle|] == needle
  }

  /** A one-character needle occurs exactly where that character stands. */
  lemma OccursAtChar(s: string, d: char, j: int)
    ensures OccursAt(s, [d], j) <==> 0 <= j < |s| && s[j] == d
  {
    if 0 <= j < |s| {
      assert s[j..j + 1] == [s[j]];
    }
  }

  /** First occurrence of `needle` at or after `from`, or `None`. */
  function FindFrom(haystack: string, needle: string, from: nat): (r: Option<nat>)
    ensures r.Some? ==> from <= r.value && OccursAt(haystack, needle, r.value)
    ensures r.Some? ==> forall j :: from <= j < r.value ==> !OccursAt(haystack, needle, j)
    ensures r.None? ==> forall j :: from <= j ==> !OccursAt(haystack, needle, j)
    decreases |haystack| - from
  {
    if from + |needle| > |haystack| then None
    else if haystack[from..from + |needle|] == needle then Some(from)
    else FindFrom(haystack, needle, from + 1)
  }

  /**
   * PHP `strpos($haystack, $needle)`: the index of the first occurrence, or
   * `None` where PHP returns `false`.  An index of 0 is a hit, not `false`.
   */
  function StrPos(haystack: string, needle: string): (r: Option<nat>)
    ensures r.Some? ==> OccursAt(haystack, needle, r.value)
    ensures r.Some? ==> forall j :: 0 <= j < r.value ==> !OccursAt(haystack, needle, j)
    ensures r.None? <==> forall j :: !OccursAt(haystack, needle, j)
  {
    FindFrom(haystack, needle, 0)
  }

  /** The first-occurrence description pins `strpos` down. */
  lemma StrPosAt(haystack: string, needle: string, p: nat)
    requires OccursAt(haystack, needle, p)
    requires forall j :: 0 <= j < p ==> !OccursAt(haystack, needle, j)
    ensures StrPos(haystack, needle) == Some(p)
  {
    assert StrPos(haystack, needle).Some?;
  }

  /** `strpos` of a one-character needle is the index of its first occurrence. */
  lemma StrPosFirstChar(s: string, d: char, p: nat)
    requires p < |s| && s[p] == d && d !in s[..p]
    ensures StrPos(s, [d]) == Some(p)
  {
    OccursAtChar(s, d, p);
    forall j | 0 <= j < p ensures !OccursAt(s, [d], j) {
      OccursAtChar(s, d, j);
      assert s[j] == s[..p][j];
    }
    StrPosAt(s, [d], p);
  }

  /** A one-character needle is found by `strpos` exactly when it is in the string. */
  lemma StrPosChar(s: string, d: char)
    ensures StrPos(s, [d]).Some? <==> d in s
  {
    if d in s {
      var j :| 0 <= j < |s| && s[j] == d;
      OccursAtChar(s, d, j);
    } else if StrPos(s, [d]).Some? {
      OccursAtChar(s, d, StrPos(s, [d]).value);
    }
  }

  /** PHP `implode($d, $pieces)`: the pieces joined by the delimiter. */
  function Implode(pieces: seq<string>, d: char): (r: string)
    requires |pieces| >= 1
  {
    if |pieces| == 1 then pieces[0] else pieces[0] + [d] + Implode(pieces[1..], d)
  }

  /** The imploded string starts with the first piece, then the delimiter if more pieces follow. */
  lemma ImplodeHead(pieces: seq<string>, d: char)
    requires |pieces| >= 1
    ensures var r := Implode(pieces, d);
      && |r| >= |pieces[0]| && r[..|pieces[0]|] == pieces[0]
      && (|pieces| > 1 ==> |r| > |pieces[0]| && r[|pieces[0]|] == d)
      && (|pieces| == 1 ==> r == pieces[0])
  {
  }

  /**
   * PHP `explode($d, $s)` for a one-character delimiter: the pieces of `s`
   * between occurrences of `d`, in order.  There is always at least one
   * piece, and two or more exactly when `strpos` finds the delimiter.
   */
  function Explode(s: string, d: char): (r: seq<string>)
    ensures |r| >= 1
    ensures |r| >= 2 <==> d in s
    decreases |s|
  {
    StrPosChar(s, d);
    match StrPos(s, [d])
    case None => [s]
    case Some(p) => [s[..p]] + Explode(s[p + 1..], d)
  }

  /**
   * Explode and implode are inverse: the pieces are free of the delimiter
   * and joining them with it gives back the string.
   */
  lemma {:induction false} ExplodeImplode(s: string, d: char)
    ensures forall k :: 0 <= k < |Explode(s, d)| ==> d !in Explode(s, d)[k]
    ensures Implode(Explode(s, d), d) == s
    decreases |s|
  {
    match StrPos(s, [d])
    case None =>
      StrPosChar(s, d);
    case Some(p) =>
      OccursAtChar(s, d, p);
      forall j | 0 <= j < p ensures s[j] != d {
        OccursAtChar(s, d, j);
      }
      var rest := Explode(s[p + 1..], d);
      ExplodeImplode(s[p + 1..], d);
      var r := [s[..p]] + rest;
      assert Explode(s, d) == r;
      assert r[1..] == rest;
      assert s == s[..p] + [d] + s[p + 1..];
  }

  /** The first two pieces can be read back off their implosion, each ended by `d` or the end. */
  lemma ImplodeFirstTwo(pieces: seq<string>, d: char)
    requires |pieces| >= 2
    ensures var s, a, b := Implode(pieces, d), pieces[0], pieces[1];
      && |a| + 1 + |b| <= |s|
      && s[..|a|] == a && s[|a|] == d
      && s[|a| + 1..|a| + 1 + |b|] == b
      && (|a| + 1 + |b| == |s| || s[|a| + 1 + |b|] == d)
  {
    var s, a, b := Implode(pieces, d), pieces[0], pieces[1];
    var tail := Implode(pieces[1..], d);
    ImplodeHead(pieces[1..], d);
    assert s == a + [d] + tail;
    var n := |a| + 1;
    assert s[n..] == tail;
    assert s[n..n + |b|] == tail[..|b|];
    if |pieces| > 2 {
      assert |pieces[1..]| > 1;
      assert s[n + |b|] == tail[|b|] == d;
    }
  }

  /**
   * `list($a, $b) = explode($d, $s)` on a string holding `d`: `$a` is the
   * text before the first `d`, `$b` the text after it up to the next `d` or
   * the end; any further pieces are dropped.
   */
  lemma ExplodeFirstTwo(s: string, d: char)
    requires d in s
    ensures |Explode(s, d)| >= 2
    ensures var a, b := Explode(s, d)[0], Explode(s, d)[1];
      && d !in a && d !in b
      && |a| + 1 + |b| <= |s|
      && s[..|a|] == a && s[|a|] == d
      && s[|a| + 1..|a| + 1 + |b|] == b
      && (|a| + 1 + |b| == |s| || s[|a| + 1 + |b|] == d)
  {
    ExplodeImplode(s, d);
    ImplodeFirstTwo(Explode(s, d), d);
  }

  /**
   * Explode is the only split with that description: any non-empty list of
   * delimiter-free pieces that implodes to `s` is `Explode(s, d)`.
   */
  lemma {:induction false} ExplodeUnique(pieces: seq<string>, s: string, d: char)
    requires |pieces| >= 1
    requires forall k :: 0 <= k < |pieces| ==> d !in pieces[k]
    requires Implode(pieces, d) == s
    ensures Explode(s, d) == pieces
    decreases |pieces|
  {
    if |pieces| == 1 {
      StrPosChar(s, d);
    } else {
      var a, tail := pieces[0], Implode(pieces[1..], d);
      var p := |a|;
      assert s == a + [d] + tail;
      assert s[..p] == a && s[p + 1..] == tail;
      StrPosFirstChar(s, d, p);
      assert Explode(s, d) == [a] + Explode(tail, d);
      ExplodeUnique(pieces[1..], tail, d);
      assert pieces == [a] + pieces[1..];
    }
  }
}
