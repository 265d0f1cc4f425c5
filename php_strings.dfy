/**
 * The handful of PHP string primitives the dispatcher is built from, as pure
 * functions over `string` (= `seq<char>`):
 *  - `explode` with a one-character separator, and its inverse `implode`;
 *  - `strpos`/`strstr` (first occurrence of a needle);
 *  - `substr($s, 1)` with PHP 8 semantics (too short, or `false`, gives "");
 *  - `preg_split("/[{}]+/", $s)`, the split on maximal runs of brace characters.
 */
module PhpStrings {

  datatype Option<T> = None | Some(value: T)

  // ---------------------------------------------------------------------------
  // explode / implode
  // ---------------------------------------------------------------------------

  /** `explode(d, s)`: the pieces of `s` between occurrences of `d`, in order. */
  function Explode(s: string, d: char): (parts: seq<string>)
    ensures |parts| >= 1
    decreases |s|
  {
    if s == [] then [[]]
    else if s[0] == d then [[]] + Explode(s[1..], d)
    else
      var rest := Explode(s[1..], d);
      [[s[0]] + rest[0]] + rest[1..]
  }

  /** No piece of a split on `d` contains `d`. */
  lemma {:induction false} ExplodePieces(s: string, d: char)
    ensures forall i :: 0 <= i < |Explode(s, d)| ==> d !in Explode(s, d)[i]
    decreases |s|
  {
    if s != [] {
      ExplodePieces(s[1..], d);
      var rest := Explode(s[1..], d);
      if s[0] != d {
        var parts := Explode(s, d);
        forall i | 0 <= i < |parts| ensures d !in parts[i] {
          if i > 0 { assert parts[i] == rest[i]; }
        }
      }
    }
  }

  /** `implode(d, parts)`: the pieces glued together with `d` between them. */
  function Implode(parts: seq<string>, d: char): string
    requires |parts| >= 1
    decreases |parts|
  {
    if |parts| == 1 then parts[0] else parts[0] + [d] + Implode(parts[1..], d)
  }

  lemma {:induction false} ImplodeConsChar(c: char, parts: seq<string>, d: char)
    requires |parts| >= 1
    ensures Implode([[c] + parts[0]] + parts[1..], d) == [c] + Implode(parts, d)
  {
    var q := [[c] + parts[0]] + parts[1..];
    assert q[1..] == parts[1..];
  }

  /** Implode of a piece in front of at least one more. */
  lemma ImplodeCons(head: string, rest: seq<string>, d: char)
    requires |rest| >= 1
    ensures Implode([head] + rest, d) == head + [d] + Implode(rest, d)
  {
    assert ([head] + rest)[1..] == rest;
  }

  /** Gluing the pieces of a split back together gives the original string. */
  lemma {:induction false} ImplodeExplode(s: string, d: char)
    ensures Implode(Explode(s, d), d) == s
    decreases |s|
  {
    if s != [] {
      ImplodeExplode(s[1..], d);
      ImplodeExplodeStep(s, d);
    }
  }

  /** One character more in front of a string whose split glues back. */
  lemma ImplodeExplodeStep(s: string, d: char)
    requires s != [] && Implode(Explode(s[1..], d), d) == s[1..]
    ensures Implode(Explode(s, d), d) == s
  {
    var rest := Explode(s[1..], d);
    if s[0] == d {
      assert Explode(s, d) == [[]] + rest;
      ImplodeCons([], rest, d);
      assert [] + [d] + s[1..] == s;
    } else {
      assert Explode(s, d) == [[s[0]] + rest[0]] + rest[1..];
      ImplodeConsChar(s[0], rest, d);
      assert [s[0]] + s[1..] == s;
    }
  }

  /** Splitting `a + t` where `a` holds no separator glues `a` onto the first piece of `t`. */
  lemma {:induction false} ExplodeAppend(a: string, t: string, d: char)
    requires d !in a
    ensures Explode(a + t, d) == [a + Explode(t, d)[0]] + Explode(t, d)[1..]
    decreases |a|
  {
    if a == [] {
      assert a + t == t;
      assert a + Explode(t, d)[0] == Explode(t, d)[0];
      assert Explode(t, d) == [Explode(t, d)[0]] + Explode(t, d)[1..];
    } else {
      ExplodeAppend(a[1..], t, d);
      assert (a + t)[1..] == a[1..] + t;
      assert [a[0]] + (a[1..] + Explode(t, d)[0]) == a + Explode(t, d)[0];
    }
  }

  /** Splitting pieces that were glued with a separator they do not contain gives them back. */
  lemma {:induction false} ExplodeImplode(parts: seq<string>, d: char)
    requires |parts| >= 1
    requires forall i :: 0 <= i < |parts| ==> d !in parts[i]
    ensures Explode(Implode(parts, d), d) == parts
    decreases |parts|
  {
    if |parts| == 1 {
      ExplodeAppend(parts[0], [], d);
      assert parts[0] + [] == parts[0];
    } else {
      var tail := Implode(parts[1..], d);
      ExplodeImplode(parts[1..], d);
      assert Implode(parts, d) == parts[0] + ([d] + tail);
      ExplodeAppend(parts[0], [d] + tail, d);
      assert ([d] + tail)[1..] == tail;
      assert Explode([d] + tail, d) == [[]] + parts[1..];
      assert parts[0] + [] == parts[0];
      assert parts == [parts[0]] + parts[1..];
    }
  }

  /** The first piece of a split on `d` is the text before the first `d`. */
  lemma {:induction false} ExplodeHead(s: string, d: char)
    requires d in s
    ensures |Explode(s, d)| >= 2
    ensures Explode(s, d)[0] + [d] <= s
    ensures d !in Explode(s, d)[0]
    decreases |s|
  {
    ExplodePieces(s, d);
    if s[0] != d {
      assert d in s[1..] by {
        var k :| 0 <= k < |s| && s[k] == d;
        assert s[1..][k - 1] == d;
      }
      ExplodeHead(s[1..], d);
    }
  }

  /** The second piece of a split on `d` is the text after the first `d`, up to the next `d` or the end. */
  lemma {:induction false} ExplodeSecond(s: string, d: char)
    requires d in s
    ensures |Explode(s, d)| >= 2
    ensures |Explode(s, d)[0]| < |s|
    ensures var head := Explode(s, d)[0];
      var rest := s[|head| + 1..];
      var second := Explode(s, d)[1];
      second <= rest && (|second| == |rest| || rest[|second|] == d)
    decreases |s|
  {
    ExplodeHead(s, d);
    if s[0] == d {
      ExplodeHead2(s[1..], d);
    } else {
      assert d in s[1..] by {
        var k :| 0 <= k < |s| && s[k] == d;
        assert s[1..][k - 1] == d;
      }
      ExplodeSecond(s[1..], d);
    }
  }

  /** The first piece of any split is a prefix of the string, ending at a `d` or at the end. */
  lemma {:induction false} ExplodeHead2(s: string, d: char)
    ensures var head := Explode(s, d)[0];
      head <= s && (|head| == |s| || s[|head|] == d)
    decreases |s|
  {
    if s != [] && s[0] != d {
      ExplodeHead2(s[1..], d);
    }
  }

  // ---------------------------------------------------------------------------
  // strpos / strstr / substr
  // ---------------------------------------------------------------------------

  /** `needle` occurs in `s` starting at index `i`. */
  predicate OccursAt(s: string, needle: string, i: nat)
  {
    i + |needle| <= |s| && s[i..i + |needle|] == needle
  }

  /** `i` is where the first occurrence of `needle` in `s` begins. */
  predicate FirstAt(s: string, needle: string, i: nat)
  {
    OccursAt(s, needle, i) && forall j: nat :: j < i ==> !OccursAt(s, needle, j)
  }

  /** `needle` does not occur in `s` at all. */
  predicate Absent(s: string, needle: string)
  {
    forall j: nat :: j <= |s| ==> !OccursAt(s, needle, j)
  }

  lemma OccursAtTail(s: string, needle: string, j: nat)
    requires |s| >= 1
    ensures OccursAt(s, needle, j + 1) <==> OccursAt(s[1..], needle, j)
  {
    if j + 1 + |needle| <= |s| {
      assert s[1..][j..j + |needle|] == s[j + 1..j + 1 + |needle|];
    }
  }

  /** `strpos(s, needle)`: where the first occurrence of `needle` begins, or `None` (PHP's `false`). */
  function Strpos(s: string, needle: string): (r: Option<nat>)
    ensures r.Some? ==> r.value + |needle| <= |s|
    decreases |s|
  {
    if |s| < |needle| then None
    else if s[..|needle|] == needle then Some(0)
    else
      match Strpos(s[1..], needle)
      case None => None
      case Some(i) => Some(i + 1)
  }

  /**
   * strpos finds the first occurrence, which is unique, and returns `false`
   * exactly when there is none.
   */
  lemma StrposFirst(s: string, needle: string)
    ensures Strpos(s, needle).Some? ==> FirstAt(s, needle, Strpos(s, needle).value)
    ensures Strpos(s, needle).None? <==> Absent(s, needle)
    ensures forall i: nat :: FirstAt(s, needle, i) ==> Strpos(s, needle) == Some(i)
  {
    StrposScan(s, needle);
  }

  lemma {:induction false} StrposScan(s: string, needle: string)
    ensures Strpos(s, needle).Some? ==> FirstAt(s, needle, Strpos(s, needle).value)
    ensures Strpos(s, needle).None? <==> Absent(s, needle)
    decreases |s|
  {
    if |s| < |needle| {
    } else if s[..|needle|] == needle {
      assert OccursAt(s, needle, 0);
    } else {
      StrposScan(s[1..], needle);
      match Strpos(s[1..], needle)
      case None =>
        forall j: nat | j <= |s| ensures !OccursAt(s, needle, j) {
          if j > 0 { OccursAtTail(s, needle, j - 1); }
        }
      case Some(i) =>
        OccursAtTail(s, needle, i);
        forall j: nat | j < i + 1 ensures !OccursAt(s, needle, j) {
          if j > 0 { OccursAtTail(s, needle, j - 1); }
        }
    }
  }

  /** `strstr(s, needle, true)`: the text before the first occurrence, or `None` (PHP's `false`). */
  function StrstrBefore(s: string, needle: string): Option<string>
  {
    match Strpos(s, needle)
    case Some(i) => Some(s[..i])
    case None => None
  }

  /** `strstr(s, needle)`: the text from the first occurrence on, or `None` (PHP's `false`). */
  function StrstrFrom(s: string, needle: string): Option<string>
  {
    match Strpos(s, needle)
    case Some(i) => Some(s[i..])
    case None => None
  }

  /** `substr(t, 1)` in PHP 8: drop the first character; "" when `t` is "" or `false` (`None`). */
  function Substr1(t: Option<string>): string
  {
    match t
    case Some(u) => if |u| >= 1 then u[1..] else []
    case None => []
  }

  // ---------------------------------------------------------------------------
  // preg_split("/[{}]+/", s)
  // ---------------------------------------------------------------------------

  predicate IsBrace(c: char)
  {
    c == '{' || c == '}'
  }

  predicate NoBrace(s: string)
  {
    forall i :: 0 <= i < |s| ==> !IsBrace(s[i])
  }

  /** Drops the maximal run of brace characters at the start of `s`. */
  function SkipBraces(s: string): (t: string)
    ensures |t| <= |s|
    ensures s != [] && IsBrace(s[0]) ==> |t| < |s|
    ensures t == [] || !IsBrace(t[0])
    decreases |s|
  {
    if s != [] && IsBrace(s[0]) then SkipBraces(s[1..]) else s
  }

  /** `preg_split("/[{}]+/", s)`: the pieces of `s` between maximal runs of `{`/`}`. */
  function BraceSplit(s: string): (parts: seq<string>)
    ensures |parts| >= 1
    decreases |s|
  {
    if s == [] then [[]]
    else if IsBrace(s[0]) then [[]] + BraceSplit(SkipBraces(s))
    else
      var rest := BraceSplit(s[1..]);
      [[s[0]] + rest[0]] + rest[1..]
  }

  /** Text not starting with a brace: its first character opens the first piece, the other pieces are unchanged. */
  lemma BraceSplitCons(s: string)
    requires s != [] && !IsBrace(s[0])
    ensures var rest := BraceSplit(s[1..]);
      var parts := BraceSplit(s);
      && |parts| == |rest|
      && parts[0] == [s[0]] + rest[0]
      && forall i :: 0 < i < |parts| ==> parts[i] == rest[i]
  {
  }

  /** No piece of a brace split holds a brace. */
  lemma {:induction false} BraceSplitNoBrace(s: string)
    ensures forall i :: 0 <= i < |BraceSplit(s)| ==> NoBrace(BraceSplit(s)[i])
    decreases |s|
  {
    if s == [] {
    } else if IsBrace(s[0]) {
      BraceSplitNoBrace(SkipBraces(s));
      var rest := BraceSplit(SkipBraces(s));
      assert BraceSplit(s) == [[]] + rest;
      forall i | 0 < i < |BraceSplit(s)| ensures NoBrace(BraceSplit(s)[i]) {
        assert BraceSplit(s)[i] == rest[i - 1];
      }
    } else {
      BraceSplitNoBrace(s[1..]);
      BraceSplitCons(s);
      var head := BraceSplit(s)[0];
      var rest := BraceSplit(s[1..]);
      assert NoBrace(head) by {
        forall k | 0 <= k < |head| ensures !IsBrace(head[k]) {
          if k > 0 { assert head[k] == rest[0][k - 1]; }
        }
      }
    }
  }

  /** The first piece of a brace split is empty exactly when `s` is empty or starts with a brace. */
  lemma BraceSplitFirst(s: string)
    ensures (BraceSplit(s)[0] == []) <==> (s == [] || IsBrace(s[0]))
  {
    if s != [] && !IsBrace(s[0]) {
      BraceSplitCons(s);
    }
  }

  /** Every piece strictly between the first and the last is non-empty. */
  lemma {:induction false} BraceSplitInner(s: string)
    ensures forall i :: 0 < i < |BraceSplit(s)| - 1 ==> BraceSplit(s)[i] != []
    decreases |s|
  {
    if s == [] {
    } else if IsBrace(s[0]) {
      var t := SkipBraces(s);
      BraceSplitInner(t);
      BraceSplitFirst(t);
      var rest := BraceSplit(t);
      assert BraceSplit(s) == [[]] + rest;
      forall i | 0 < i < |BraceSplit(s)| - 1 ensures BraceSplit(s)[i] != [] {
        assert BraceSplit(s)[i] == rest[i - 1];
      }
    } else {
      BraceSplitInner(s[1..]);
      BraceSplitCons(s);
    }
  }

  lemma {:induction false} SkipBracesRun(r: string, t: string)
    requires forall i :: 0 <= i < |r| ==> IsBrace(r[i])
    requires t == [] || !IsBrace(t[0])
    ensures SkipBraces(r + t) == t
    decreases |r|
  {
    if r == [] {
      assert r + t == t;
    } else {
      assert (r + t)[1..] == r[1..] + t;
      SkipBracesRun(r[1..], t);
    }
  }

  /** A non-empty run of braces in front of `t` (which does not start with one) opens an empty first piece. */
  lemma {:induction false} BraceSplitRun(r: string, t: string)
    requires |r| >= 1 && forall i :: 0 <= i < |r| ==> IsBrace(r[i])
    requires t == [] || !IsBrace(t[0])
    ensures BraceSplit(r + t) == [[]] + BraceSplit(t)
  {
    SkipBracesRun(r, t);
  }

  /** Brace-free text in front of `t` is glued onto the first piece of `t`. */
  lemma {:induction false} BraceSplitPlain(a: string, t: string)
    requires NoBrace(a)
    ensures BraceSplit(a + t) == [a + BraceSplit(t)[0]] + BraceSplit(t)[1..]
    decreases |a|
  {
    if a == [] {
      assert a + t == t;
      assert a + BraceSplit(t)[0] == BraceSplit(t)[0];
      assert BraceSplit(t) == [BraceSplit(t)[0]] + BraceSplit(t)[1..];
    } else {
      assert (a + t)[1..] == a[1..] + t;
      BraceSplitPlain(a[1..], t);
      assert [a[0]] + (a[1..] + BraceSplit(t)[0]) == a + BraceSplit(t)[0];
    }
  }
}
