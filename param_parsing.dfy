/**
 * Pattern-based parameter extraction: `UriDispatcher::getParamData` and the
 * value-level meaning of `UriDispatcher::parseParamsData` (Dispatcher.php).
 *
 * A pattern such as `{width|integer}x{height|integer}` is split on maximal
 * runs of braces; dropping the first and last pieces leaves the "parts"
 * `["width|integer", "x", "height|integer"]`, alternating placeholder blocks
 * (`name|type`) and delimiters. The raw parameter string is consumed left to
 * right: a placeholder followed by a delimiter takes the text before the
 * delimiter's first occurrence, and the cursor moves to one character past
 * where that occurrence begins; the final placeholder takes what is left.
 *
 * The result is a PHP array: an ordered map in which assigning an existing
 * key overwrites its value in place and a new key is appended.
 */
module ParamParsing {
  import opened PhpStrings
  import opened Coercion

  /** What getParamData returns: a variable name and its coerced value. */
  datatype Param = Param(variable: string, value: Value)

  /** One slot of a PHP array with string keys. */
  datatype Entry = Entry(key: string, value: Value)

  // ---------------------------------------------------------------------------
  // PHP arrays with string keys
  // ---------------------------------------------------------------------------

  function Keys(arr: seq<Entry>): seq<string>
    decreases |arr|
  {
    if arr == [] then [] else [arr[0].key] + Keys(arr[1..])
  }

  /** `$arr[$k]`, or `None` when `k` is not a key. */
  function Lookup(arr: seq<Entry>, k: string): Option<Value>
    decreases |arr|
  {
    if arr == [] then None
    else if arr[0].key == k then Some(arr[0].value)
    else Lookup(arr[1..], k)
  }

  predicate Distinct(ks: seq<string>)
  {
    forall i, j :: 0 <= i < j < |ks| ==> ks[i] != ks[j]
  }

  /** `$arr[$k] = $v`: a present key keeps its position and gets the new value; a new key is appended. */
  function Assign(arr: seq<Entry>, k: string, v: Value): (r: seq<Entry>)
    ensures Keys(r) == if k in Keys(arr) then Keys(arr) else Keys(arr) + [k]
    ensures Lookup(r, k) == Some(v)
    ensures forall k' :: k' != k ==> Lookup(r, k') == Lookup(arr, k')
    decreases |arr|
  {
    if arr == [] then [Entry(k, v)]
    else if arr[0].key == k then [Entry(k, v)] + arr[1..]
    else
      var rest := Assign(arr[1..], k, v);
      assert ([arr[0]] + rest)[1..] == rest;
      [arr[0]] + rest
  }

  /** The assignments of `log`, performed in order on `arr`. */
  function AssignAll(arr: seq<Entry>, log: seq<Param>): seq<Entry>
    decreases |log|
  {
    if log == [] then arr
    else AssignAll(Assign(arr, log[0].variable, log[0].value), log[1..])
  }

  /** The variable names of `log`, in order. */
  function Vars(log: seq<Param>): (vs: seq<string>)
    ensures |vs| == |log|
    ensures forall i :: 0 <= i < |log| ==> vs[i] == log[i].variable
    decreases |log|
  {
    if log == [] then [] else [log[0].variable] + Vars(log[1..])
  }

  /** `ks` followed by the members of `vs` not seen before, in order of first occurrence. */
  function AppendNew(ks: seq<string>, vs: seq<string>): seq<string>
    decreases |vs|
  {
    if vs == [] then ks
    else AppendNew(if vs[0] in ks then ks else ks + [vs[0]], vs[1..])
  }

  /** The array holding exactly the given pairs, in order. */
  function Entries(log: seq<Param>): (arr: seq<Entry>)
    ensures |arr| == |log|
    decreases |log|
  {
    if log == [] then [] else [Entry(log[0].variable, log[0].value)] + Entries(log[1..])
  }

  // ---------------------------------------------------------------------------
  // getParamData
  // ---------------------------------------------------------------------------

  /** PHP truthiness of a string: everything except "" and "0". */
  predicate Truthy(d: string)
  {
    d != [] && d != "0"
  }

  /** `explode('|', block)[0]`: the text before the first `|`. */
  function BlockName(block: string): (name: string)
  {
    Explode(block, '|')[0]
  }

  /**
   * `explode('|', block)[1]`: the text after the first `|`, up to the next `|`
   * or the end. A block without `|` has no such piece; its type reads as "".
   */
  function BlockType(block: string): (tag: string)
  {
    var pieces := Explode(block, '|');
    if |pieces| >= 2 then pieces[1] else []
  }

  /** Neither the name nor the type read from a block contains `|`. */
  lemma BlockPieces(block: string)
    ensures '|' !in BlockName(block) && '|' !in BlockType(block)
  {
    ExplodePieces(block, '|');
  }

  /** A block `name|type...` lays out as its name, a `|`, then its type up to the next `|`. */
  lemma BlockLayout(block: string)
    requires '|' in block
    ensures BlockName(block) + "|" <= block
    ensures var rest := block[|BlockName(block)| + 1..];
      BlockType(block) <= rest && (|BlockType(block)| == |rest| || rest[|BlockType(block)|] == '|')
  {
    ExplodeHead(block, '|');
    ExplodeSecond(block, '|');
  }

  /**
   * The value getParamData coerces: with a truthy delimiter, the text before
   * its first occurrence, or `false` when it does not occur; with a missing or
   * falsy delimiter ("0" included), the whole string.
   */
  function RawValue(s: string, delimiter: Option<string>): Raw
  {
    if delimiter.Some? && Truthy(delimiter.value) then
      match StrstrBefore(s, delimiter.value)
      case Some(before) => RawString(before)
      case None => RawFalse
    else RawString(s)
  }

  /** What getParamData reads, in terms of where the delimiter first occurs. */
  lemma RawValueRead(s: string, delimiter: Option<string>)
    ensures var raw := RawValue(s, delimiter);
      && (delimiter.None? || !Truthy(delimiter.value) ==> raw == RawString(s))
      && (delimiter.Some? && Truthy(delimiter.value) ==>
        && (forall i: nat :: FirstAt(s, delimiter.value, i) ==> raw == RawString(s[..i]))
        && (Absent(s, delimiter.value) <==> raw == RawFalse))
  {
    if delimiter.Some? {
      StrposFirst(s, delimiter.value);
    }
  }

  /** `getParamData(block, s, delimiter)`: the block's variable and the value coerced to the block's type. */
  function GetParamData(block: string, s: string, delimiter: Option<string>): Param
  {
    Param(BlockName(block), Settype(RawValue(s, delimiter), BlockType(block)))
  }

  /**
   * `substr(strstr(s, d), 1)`: the cursor after a delimiter. It lands ONE
   * character past where the first occurrence of `d` begins, whatever the
   * length of `d`, and on "" when `d` does not occur.
   */
  function Advance(s: string, d: string): string
  {
    Substr1(StrstrFrom(s, d))
  }

  /** Where the cursor lands, in terms of where the delimiter first occurs. */
  lemma AdvancePast(s: string, d: string)
    ensures forall i: nat :: FirstAt(s, d, i) && d != [] ==> Advance(s, d) == s[i + 1..]
    ensures Absent(s, d) ==> Advance(s, d) == []
  {
    StrposFirst(s, d);
  }

  // ---------------------------------------------------------------------------
  // parseParamsData, as a function of the pattern and the parameter string
  // ---------------------------------------------------------------------------

  /** `array_slice(preg_split("/[{}]+/", pattern), 1, -1)`. */
  function ParamsParts(pattern: string): seq<string>
  {
    var pieces := BraceSplit(pattern);
    if |pieces| >= 2 then pieces[1..|pieces| - 1] else []
  }

  /**
   * The parts still to read once a placeholder and its delimiter are done: the
   * parts after both, or, when the delimiter is the last part, the delimiter
   * alone, which the final getParamData call then reads as a block.
   */
  function Following(parts: seq<string>): (rest: seq<string>)
    requires |parts| >= 2
    ensures 1 <= |rest| < |parts|
  {
    if |parts| == 2 then parts[1..] else parts[2..]
  }

  /**
   * Every part read as a placeholder block contains `|`: the parts at even
   * indices and the last part.
   */
  predicate WellFormedParts(parts: seq<string>)
    decreases |parts|
  {
    && |parts| >= 1
    && '|' in parts[0]
    && (|parts| == 1 || WellFormedParts(Following(parts)))
  }

  predicate WellFormedPattern(pattern: string)
  {
    WellFormedParts(ParamsParts(pattern))
  }

  /** The parts read as placeholder blocks: those at even indices, then the last part. */
  function Blocks(parts: seq<string>): (bs: seq<string>)
    requires WellFormedParts(parts)
    ensures 1 <= |bs| <= |parts|
    decreases |parts|
  {
    if |parts| == 1 then [parts[0]] else [parts[0]] + Blocks(Following(parts))
  }

  /** The variable names the placeholder blocks declare, in pattern order. */
  function PlaceholderNames(parts: seq<string>): (names: seq<string>)
    requires WellFormedParts(parts)
    ensures |names| == |Blocks(parts)|
    ensures forall k :: 0 <= k < |names| ==> names[k] == BlockName(Blocks(parts)[k])
    decreases |parts|
  {
    if |parts| == 1 then [BlockName(parts[0])]
    else [BlockName(parts[0])] + PlaceholderNames(Following(parts))
  }

  /**
   * The getParamData results of the loop in parseParamsData, in order, starting
   * from the cursor `s`: one per placeholder block.
   */
  function ExtractFrom(parts: seq<string>, s: string): (log: seq<Param>)
    requires WellFormedParts(parts)
    ensures |log| == |Blocks(parts)|
    decreases |parts|
  {
    if |parts| == 1 then [GetParamData(parts[0], s, None)]
    else [GetParamData(parts[0], s, Some(parts[1]))] + ExtractFrom(Following(parts), Advance(s, parts[1]))
  }

  /** The array parseParamsData returns for `pattern` and `paramString`. */
  function ParseParams(pattern: string, paramString: string): seq<Entry>
    requires WellFormedPattern(pattern)
  {
    AssignAll([], ExtractFrom(ParamsParts(pattern), paramString))
  }

  /** Reading a placeholder with its delimiter, then the rest, starting from the array `arr`. */
  lemma AssignPairThen(arr: seq<Entry>, parts: seq<string>, s: string)
    requires WellFormedParts(parts) && |parts| >= 2
    ensures var p := GetParamData(parts[0], s, Some(parts[1]));
      AssignAll(arr, ExtractFrom(parts, s))
        == AssignAll(Assign(arr, p.variable, p.value), ExtractFrom(Following(parts), Advance(s, parts[1])))
  {
    var log := ExtractFrom(parts, s);
    assert log[1..] == ExtractFrom(Following(parts), Advance(s, parts[1]));
  }

  /** Reading the final placeholder, which has no delimiter, on top of the array `arr`. */
  lemma AssignLast(arr: seq<Entry>, parts: seq<string>, s: string)
    requires WellFormedParts(parts) && |parts| == 1
    ensures var p := GetParamData(parts[0], s, None);
      AssignAll(arr, ExtractFrom(parts, s)) == Assign(arr, p.variable, p.value)
  {
    var log := ExtractFrom(parts, s);
    assert log[1..] == [];
  }

  // ---------------------------------------------------------------------------
  // Lemmas: arrays
  // ---------------------------------------------------------------------------

  lemma {:induction false} AppendNewContents(ks: seq<string>, vs: seq<string>)
    ensures ks <= AppendNew(ks, vs)
    ensures forall x :: x in AppendNew(ks, vs) <==> x in ks || x in vs
    ensures Distinct(ks) ==> Distinct(AppendNew(ks, vs))
    decreases |vs|
  {
    if vs != [] {
      var ks' := if vs[0] in ks then ks else ks + [vs[0]];
      AppendNewContents(ks', vs[1..]);
      assert vs == [vs[0]] + vs[1..];
      assert forall x :: x in vs <==> x == vs[0] || x in vs[1..];
    }
  }

  /** After a run of assignments the keys are the old ones, then the new names in order of first assignment. */
  lemma {:induction false} AssignAllKeys(arr: seq<Entry>, log: seq<Param>)
    ensures Keys(AssignAll(arr, log)) == AppendNew(Keys(arr), Vars(log))
    decreases |log|
  {
    if log != [] {
      AssignAllKeys(Assign(arr, log[0].variable, log[0].value), log[1..]);
    }
  }

  /** A key no assignment of `log` names keeps its value. */
  lemma {:induction false} AssignAllUntouched(arr: seq<Entry>, log: seq<Param>, k: string)
    requires k !in Vars(log)
    ensures Lookup(AssignAll(arr, log), k) == Lookup(arr, k)
    decreases |log|
  {
    if log != [] {
      assert k in Vars(log[1..]) ==> k in Vars(log);
      AssignAllUntouched(Assign(arr, log[0].variable, log[0].value), log[1..], k);
    }
  }

  /** The last assignment to a key decides its value. */
  lemma {:induction false} LastAssignmentWins(arr: seq<Entry>, log: seq<Param>, i: nat)
    requires i < |log|
    requires forall j :: i < j < |log| ==> log[j].variable != log[i].variable
    ensures Lookup(AssignAll(arr, log), log[i].variable) == Some(log[i].value)
    decreases |log|
  {
    var next := Assign(arr, log[0].variable, log[0].value);
    if i == 0 {
      assert log[i].variable !in Vars(log[1..]);
      AssignAllUntouched(next, log[1..], log[0].variable);
    } else {
      LastAssignmentWins(next, log[1..], i - 1);
    }
  }

  lemma {:induction false} AssignNewKey(arr: seq<Entry>, k: string, v: Value)
    requires forall j :: 0 <= j < |arr| ==> arr[j].key != k
    ensures Assign(arr, k, v) == arr + [Entry(k, v)]
    decreases |arr|
  {
    if arr != [] {
      AssignNewKey(arr[1..], k, v);
      assert arr == [arr[0]] + arr[1..];
    }
  }

  predicate FreshNames(arr: seq<Entry>, log: seq<Param>)
  {
    && (forall i, j :: 0 <= i < j < |log| ==> log[i].variable != log[j].variable)
    && (forall i, j :: 0 <= i < |log| && 0 <= j < |arr| ==> log[i].variable != arr[j].key)
  }

  lemma AssignAllFirst(arr: seq<Entry>, log: seq<Param>, next: seq<Entry>)
    requires log != [] && Assign(arr, log[0].variable, log[0].value) == next
    ensures AssignAll(arr, log) == AssignAll(next, log[1..])
  {
  }

  lemma FreshNamesHead(arr: seq<Entry>, log: seq<Param>)
    requires log != [] && FreshNames(arr, log)
    ensures AssignAll(arr, log) == AssignAll(arr + [Entry(log[0].variable, log[0].value)], log[1..])
  {
    var e := Entry(log[0].variable, log[0].value);
    assert forall j :: 0 <= j < |arr| ==> arr[j].key != e.key;
    AssignNewKey(arr, e.key, e.value);
    AssignAllFirst(arr, log, arr + [e]);
  }

  lemma EntriesCons(arr: seq<Entry>, log: seq<Param>)
    requires log != []
    ensures (arr + [Entry(log[0].variable, log[0].value)]) + Entries(log[1..]) == arr + Entries(log)
  {
    var e := Entry(log[0].variable, log[0].value);
    assert Entries(log) == [e] + Entries(log[1..]);
  }

  lemma FreshNamesTail(arr: seq<Entry>, log: seq<Param>)
    requires log != [] && FreshNames(arr, log)
    ensures FreshNames(arr + [Entry(log[0].variable, log[0].value)], log[1..])
  {
    var arr' := arr + [Entry(log[0].variable, log[0].value)];
    forall i, j | 0 <= i < |log| - 1 && 0 <= j < |arr'| ensures log[1..][i].variable != arr'[j].key {
      if j < |arr| {
        assert arr'[j] == arr[j];
      } else {
        assert log[1..][i] == log[i + 1];
      }
    }
  }

  /** Assigning distinct fresh keys appends them in order. */
  lemma {:induction false} AssignAllFresh(arr: seq<Entry>, log: seq<Param>)
    requires FreshNames(arr, log)
    ensures AssignAll(arr, log) == arr + Entries(log)
    decreases |log|
  {
    if log == [] {
      assert arr + [] == arr;
    } else {
      FreshNamesHead(arr, log);
      FreshNamesTail(arr, log);
      EntriesCons(arr, log);
      AssignAllFresh(arr + [Entry(log[0].variable, log[0].value)], log[1..]);
    }
  }

  // ---------------------------------------------------------------------------
  // Lemmas: extraction
  // ---------------------------------------------------------------------------

  /** The variables assigned are the placeholder names, in pattern order. */
  lemma {:induction false} ExtractNames(parts: seq<string>, s: string)
    requires WellFormedParts(parts)
    ensures Vars(ExtractFrom(parts, s)) == PlaceholderNames(parts)
    decreases |parts|
  {
    if |parts| > 1 {
      ExtractNames(Following(parts), Advance(s, parts[1]));
    }
  }

  /**
   * The keys of parseParamsData's result are exactly the names before `|` in
   * the placeholder blocks, each once, in order of first appearance.
   */
  lemma ParamsKeys(pattern: string, paramString: string)
    requires WellFormedPattern(pattern)
    ensures var names := PlaceholderNames(ParamsParts(pattern));
      var keys := Keys(ParseParams(pattern, paramString));
      && keys == AppendNew([], names)
      && Distinct(keys)
      && forall k :: k in keys <==> k in names
  {
    var log := ExtractFrom(ParamsParts(pattern), paramString);
    AssignAllKeys([], log);
    ExtractNames(ParamsParts(pattern), paramString);
    AppendNewContents([], PlaceholderNames(ParamsParts(pattern)));
  }

  /** When a name repeats, the value from its last placeholder wins. */
  lemma ParamsLastWins(pattern: string, paramString: string, i: nat)
    requires WellFormedPattern(pattern)
    requires i < |ExtractFrom(ParamsParts(pattern), paramString)|
    requires var log := ExtractFrom(ParamsParts(pattern), paramString);
      forall j :: i < j < |log| ==> log[j].variable != log[i].variable
    ensures var log := ExtractFrom(ParamsParts(pattern), paramString);
      Lookup(ParseParams(pattern, paramString), log[i].variable) == Some(log[i].value)
  {
    LastAssignmentWins([], ExtractFrom(ParamsParts(pattern), paramString), i);
  }

  // ---------------------------------------------------------------------------
  // The log as raw reads, each coerced by its block
  // ---------------------------------------------------------------------------

  /**
   * What the placeholders read before coercion, in order: the string (or
   * `false`) each getParamData call hands to settype.
   */
  function Reads(parts: seq<string>, s: string): (raws: seq<Raw>)
    requires WellFormedParts(parts)
    ensures |raws| == |Blocks(parts)|
    decreases |parts|
  {
    if |parts| == 1 then [RawValue(s, None)]
    else [RawValue(s, Some(parts[1]))] + Reads(Following(parts), Advance(s, parts[1]))
  }

  /** Each block's variable, paired with the raw read at the same position coerced to the block's type. */
  function Coerce(bs: seq<string>, raws: seq<Raw>): (log: seq<Param>)
    requires |bs| == |raws|
    ensures |log| == |bs|
    decreases |bs|
  {
    if bs == [] then []
    else [Param(BlockName(bs[0]), Settype(raws[0], BlockType(bs[0])))] + Coerce(bs[1..], raws[1..])
  }

  /** The k-th pair holds the k-th block's name and the k-th read coerced to that block's type. */
  lemma {:induction false} CoerceAt(bs: seq<string>, raws: seq<Raw>, k: nat)
    requires |bs| == |raws| && k < |bs|
    ensures Coerce(bs, raws)[k] == Param(BlockName(bs[k]), Settype(raws[k], BlockType(bs[k])))
    decreases k
  {
    if k > 0 {
      CoerceAt(bs[1..], raws[1..], k - 1);
    }
  }

  lemma CoerceCons(b: string, r: Raw, bs: seq<string>, raws: seq<Raw>)
    requires |bs| == |raws|
    ensures Coerce([b] + bs, [r] + raws) == [Param(BlockName(b), Settype(r, BlockType(b)))] + Coerce(bs, raws)
  {
    assert ([b] + bs)[1..] == bs;
    assert ([r] + raws)[1..] == raws;
  }

  /** The loop's log is exactly the raw reads, each coerced by its own block. */
  lemma {:induction false} ExtractCoerces(parts: seq<string>, s: string)
    requires WellFormedParts(parts)
    ensures ExtractFrom(parts, s) == Coerce(Blocks(parts), Reads(parts, s))
    decreases |parts|
  {
    if |parts| == 1 {
      CoerceCons(parts[0], RawValue(s, None), [], []);
    } else {
      var rest := Following(parts);
      var next := Advance(s, parts[1]);
      ExtractCoerces(rest, next);
      ExtractStep(parts, s);
      CoerceCons(parts[0], RawValue(s, Some(parts[1])), Blocks(rest), Reads(rest, next));
    }
  }

  /** One step of the extraction: the first block, then the rest from the advanced cursor. */
  lemma ExtractStep(parts: seq<string>, s: string)
    requires WellFormedParts(parts) && |parts| >= 2
    ensures ExtractFrom(parts, s)
         == [GetParamData(parts[0], s, Some(parts[1]))] + ExtractFrom(Following(parts), Advance(s, parts[1]))
    ensures Blocks(parts) == [parts[0]] + Blocks(Following(parts))
  {
  }

  // ---------------------------------------------------------------------------
  // Starvation: what placeholders read once the cursor has run out
  // ---------------------------------------------------------------------------

  /** A read with nothing in it: `false` (a delimiter that could not be found) or "". */
  predicate Starved(r: Raw)
  {
    r == RawFalse || r == RawString([])
  }

  /** An empty cursor reads nothing, and stays empty. */
  lemma EmptyCursor(delimiter: Option<string>)
    ensures Starved(RawValue([], delimiter))
    ensures delimiter.Some? ==> Advance([], delimiter.value) == []
  {
    if delimiter.Some? && Truthy(delimiter.value) {
      assert Absent([], delimiter.value);
    }
  }

  /** One step of the reads: the first placeholder, then the rest from the advanced cursor. */
  lemma ReadsStep(parts: seq<string>, s: string)
    requires WellFormedParts(parts) && |parts| >= 2
    ensures Reads(parts, s) == [RawValue(s, Some(parts[1]))] + Reads(Following(parts), Advance(s, parts[1]))
  {
  }

  /**
   * Once the cursor is empty, every later placeholder reads nothing: one with
   * a truthy delimiter reads `false`, the others "", and the last one "".
   */
  lemma {:induction false} ReadsEmpty(parts: seq<string>)
    requires WellFormedParts(parts)
    ensures var raws := Reads(parts, []);
      && (forall k :: 0 <= k < |raws| ==> Starved(raws[k]))
      && raws[|raws| - 1] == RawString([])
    decreases |parts|
  {
    if |parts| == 1 {
      EmptyCursor(None);
    } else {
      var rest := Following(parts);
      ReadsEmpty(rest);
      ReadsEmptyStep(parts);
      StarvedCons(Reads(parts, []), RawValue([], Some(parts[1])), Reads(rest, []));
    }
  }

  /** On an empty cursor the first placeholder starves and the rest read from the empty cursor again. */
  lemma ReadsEmptyStep(parts: seq<string>)
    requires WellFormedParts(parts) && |parts| >= 2
    ensures Starved(RawValue([], Some(parts[1])))
    ensures Reads(parts, []) == [RawValue([], Some(parts[1]))] + Reads(Following(parts), [])
  {
    EmptyCursor(Some(parts[1]));
    ReadsStep(parts, []);
  }

  /** Reads that starve, with one more read in front: all but the first starve, and the last is "". */
  lemma StarvedCons(raws: seq<Raw>, head: Raw, tail: seq<Raw>)
    requires raws == [head] + tail
    requires tail != [] && tail[|tail| - 1] == RawString([])
    requires forall k :: 0 <= k < |tail| ==> Starved(tail[k])
    ensures raws[0] == head
    ensures forall k :: 1 <= k < |raws| ==> Starved(raws[k])
    ensures Starved(head) ==> forall k :: 0 <= k < |raws| ==> Starved(raws[k])
    ensures raws[|raws| - 1] == RawString([])
  {
    forall k | 1 <= k < |raws| ensures Starved(raws[k]) {
      assert raws[k] == tail[k - 1];
    }
    assert raws[|raws| - 1] == tail[|tail| - 1];
  }

  /**
   * A truthy delimiter that does not occur: its placeholder reads `false` and
   * every later placeholder starves on an empty cursor.
   */
  lemma MissingDelimiterStarves(parts: seq<string>, s: string)
    requires WellFormedParts(parts) && |parts| >= 2
    requires Truthy(parts[1]) && Absent(s, parts[1])
    ensures var raws := Reads(parts, s);
      && raws[0] == RawFalse
      && (forall k :: 1 <= k < |raws| ==> Starved(raws[k]))
      && raws[|raws| - 1] == RawString([])
  {
    MissingStep(parts, s);
    StarvedAfterFalse(parts, s);
  }

  /** Reads that start with `false` followed by the reads of an empty cursor. */
  lemma StarvedAfterFalse(parts: seq<string>, s: string)
    requires WellFormedParts(parts) && |parts| >= 2
    requires Reads(parts, s) == [RawFalse] + Reads(Following(parts), [])
    ensures var raws := Reads(parts, s);
      && raws[0] == RawFalse
      && (forall k :: 1 <= k < |raws| ==> Starved(raws[k]))
      && raws[|raws| - 1] == RawString([])
  {
    var rest := Following(parts);
    ReadsEmpty(rest);
    StarvedCons(Reads(parts, s), RawFalse, Reads(rest, []));
  }

  /** A truthy delimiter that does not occur reads `false` and leaves the cursor empty. */
  lemma MissingStep(parts: seq<string>, s: string)
    requires WellFormedParts(parts) && |parts| >= 2
    requires Truthy(parts[1]) && Absent(s, parts[1])
    ensures RawValue(s, Some(parts[1])) == RawFalse
    ensures Reads(parts, s) == [RawFalse] + Reads(Following(parts), [])
  {
    RawValueRead(s, Some(parts[1]));
    AdvancePast(s, parts[1]);
    ReadsStep(parts, s);
  }

  // ---------------------------------------------------------------------------
  // Round trip: writing values into a pattern's delimiters and parsing them back
  // ---------------------------------------------------------------------------

  /** The placeholder block declaring `p`'s variable with the type of its value. */
  function BlockOf(p: Param): string
  {
    p.variable + "|" + TypeTag(p.value)
  }

  /** The parts of a pattern declaring `ps` in order, separated by `delims`. */
  function TemplateParts(ps: seq<Param>, delims: seq<string>): seq<string>
    requires |ps| == |delims| + 1
    decreases |delims|
  {
    if delims == [] then [BlockOf(ps[0])]
    else [BlockOf(ps[0]), delims[0]] + TemplateParts(ps[1..], delims[1..])
  }

  /** The pattern text for `parts`: blocks in braces, delimiters between them. */
  function Template(parts: seq<string>): string
    requires |parts| % 2 == 1
    decreases |parts|
  {
    "{" + parts[0] + "}" + (if |parts| == 1 then [] else parts[1] + Template(parts[2..]))
  }

  /** The parameter string holding the values of `ps` separated by `delims`. */
  function ParamText(ps: seq<Param>, delims: seq<string>): string
    requires |ps| == |delims| + 1
    requires forall j :: 0 <= j < |ps| ==> Representable(ps[j].value)
    decreases |delims|
  {
    if delims == [] then Render(ps[0].value)
    else Render(ps[0].value) + delims[0] + ParamText(ps[1..], delims[1..])
  }

  /**
   * Values that survive the trip: modelled types, names without `|`, and
   * one-character truthy delimiters that do not occur in the value before them.
   */
  predicate Separable(ps: seq<Param>, delims: seq<string>)
  {
    && |ps| == |delims| + 1
    && (forall j :: 0 <= j < |ps| ==> Representable(ps[j].value) && '|' !in ps[j].variable)
    && (forall j :: 0 <= j < |delims| ==>
          |delims[j]| == 1 && delims[j] != "0" && delims[j][0] !in Render(ps[j].value))
  }

  /** A one-character needle first occurs where it first appears. */
  lemma SingleCharFirstAt(a: string, c: char, t: string)
    requires c !in a
    ensures FirstAt(a + [c] + t, [c], |a|)
  {
    var s := a + [c] + t;
    assert s[|a|..|a| + 1] == [c];
    forall j: nat | j < |a| ensures !OccursAt(s, [c], j) {
      assert s[j..j + 1] == [a[j]];
    }
  }

  /** The block of `p` names `p`'s variable and its value's type. */
  lemma BlockOfParts(p: Param)
    requires '|' !in p.variable && Representable(p.value)
    ensures '|' in BlockOf(p)
    ensures BlockName(BlockOf(p)) == p.variable
    ensures BlockType(BlockOf(p)) == TypeTag(p.value)
  {
    var tag := TypeTag(p.value);
    assert '|' !in tag by {
      match p.value
      case VString(_) => assert tag == "string";
      case VInt(_) => assert tag == "integer";
      case VBool(_) => assert tag == "boolean";
      case VNull => assert tag == "null";
    }
    assert BlockOf(p) == Implode([p.variable, tag], '|');
    ExplodeImplode([p.variable, tag], '|');
    assert BlockOf(p)[|p.variable|] == '|';
  }

  /**
   * Parsing the text of values laid out by a pattern's delimiters gives back
   * exactly those values, in order.
   */
  lemma {:induction false} ExtractRoundTrip(ps: seq<Param>, delims: seq<string>)
    requires Separable(ps, delims)
    ensures WellFormedParts(TemplateParts(ps, delims))
    ensures ExtractFrom(TemplateParts(ps, delims), ParamText(ps, delims)) == ps
    decreases |delims|
  {
    var p := ps[0];
    BlockOfParts(p);
    if delims == [] {
      TypeTagLower(p.value);
      SettypeRender(p.value, TypeTag(p.value));
      assert ps == [p];
    } else {
      ParamTextCons(ps, delims);
      TemplatePartsCons(ps, delims);
      ExtractRoundTrip(ps[1..], delims[1..]);
      ReadThen(p, delims[0], TemplateParts(ps[1..], delims[1..]), ParamText(ps[1..], delims[1..]), ps[1..]);
      HeadTail(ps);
    }
  }

  /** A placeholder and its delimiter in front of parts that read back `tail`. */
  lemma ReadThen(p: Param, d: string, later: seq<string>, rest: string, tail: seq<Param>)
    requires '|' !in p.variable && Representable(p.value)
    requires |d| == 1 && d != "0" && d[0] !in Render(p.value)
    requires WellFormedParts(later) && ExtractFrom(later, rest) == tail
    ensures WellFormedParts([BlockOf(p), d] + later)
    ensures ExtractFrom([BlockOf(p), d] + later, Render(p.value) + d + rest) == [p] + tail
  {
    BlockOfParts(p);
    ExtractCons([BlockOf(p), d] + later, later, Render(p.value) + d + rest);
    ReadOne(p, d, rest);
  }

  /** The text of separable values: the first value, its delimiter, then the text of the rest. */
  lemma ParamTextCons(ps: seq<Param>, delims: seq<string>)
    requires Separable(ps, delims) && delims != []
    ensures Separable(ps[1..], delims[1..])
    ensures ParamText(ps, delims) == Render(ps[0].value) + delims[0] + ParamText(ps[1..], delims[1..])
  {
    SeparableTail(ps, delims);
  }

  lemma TemplatePartsCons(ps: seq<Param>, delims: seq<string>)
    requires |ps| == |delims| + 1 && delims != []
    ensures TemplateParts(ps, delims) == [BlockOf(ps[0]), delims[0]] + TemplateParts(ps[1..], delims[1..])
  {
  }

  lemma SeparableTail(ps: seq<Param>, delims: seq<string>)
    requires Separable(ps, delims) && delims != []
    ensures Separable(ps[1..], delims[1..])
  {
    forall j | 0 <= j < |delims| - 1
      ensures |delims[1..][j]| == 1 && delims[1..][j] != "0" && delims[1..][j][0] !in Render(ps[1..][j].value)
    {
      assert delims[1..][j] == delims[j + 1] && ps[1..][j] == ps[j + 1];
    }
  }

  /** One placeholder followed by its delimiter reads back its value and moves past the delimiter. */
  lemma ReadOne(p: Param, d: string, rest: string)
    requires '|' !in p.variable && Representable(p.value)
    requires |d| == 1 && d != "0" && d[0] !in Render(p.value)
    ensures GetParamData(BlockOf(p), Render(p.value) + d + rest, Some(d)) == p
    ensures Advance(Render(p.value) + d + rest, d) == rest
  {
    var v := Render(p.value);
    var text := v + d + rest;
    assert d == [d[0]];
    SingleCharFirstAt(v, d[0], rest);
    assert text[..|v|] == v;
    assert text[|v| + 1..] == rest;
    RawValueRead(text, Some(d));
    AdvancePast(text, d);
    BlockOfParts(p);
    TypeTagLower(p.value);
    SettypeRender(p.value, TypeTag(p.value));
  }

  /** Reading a block, its delimiter and then `later`. */
  lemma ExtractCons(parts: seq<string>, later: seq<string>, s: string)
    requires |parts| >= 3 && '|' in parts[0] && parts[2..] == later && WellFormedParts(later)
    ensures WellFormedParts(parts)
    ensures ExtractFrom(parts, s)
         == [GetParamData(parts[0], s, Some(parts[1]))] + ExtractFrom(later, Advance(s, parts[1]))
  {
  }

  lemma NoBraceConcat(a: string, b: string)
    requires NoBrace(a) && NoBrace(b)
    ensures NoBrace(a + b)
  {
    forall i | 0 <= i < |a + b| ensures !IsBrace((a + b)[i]) {
      if i >= |a| { assert (a + b)[i] == b[i - |a|]; }
    }
  }

  /** Splitting a template on brace runs gives its parts between an empty first and last piece. */
  lemma {:induction false} TemplateSplit(parts: seq<string>)
    requires |parts| % 2 == 1
    requires forall i :: 0 <= i < |parts| ==> parts[i] != [] && NoBrace(parts[i])
    ensures BraceSplit(Template(parts)) == [[]] + parts + [[]]
    decreases |parts|
  {
    if |parts| == 1 {
      TemplateSplitOne(parts[0]);
      assert parts == [parts[0]];
    } else {
      var rest := parts[2..];
      forall i | 0 <= i < |rest| ensures rest[i] != [] && NoBrace(rest[i]) {
        assert rest[i] == parts[i + 2];
      }
      TemplateSplit(rest);
      TemplateCons(parts);
      AppendAssoc([[]], rest, [[]]);
      TemplateSplitStep(parts[0], parts[1], Template(rest), rest + [[]]);
      ConsTwo(parts, [[]]);
      AppendAssoc([[]], parts, [[]]);
    }
  }

  lemma AppendAssoc<T>(a: seq<T>, b: seq<T>, c: seq<T>)
    ensures a + b + c == a + (b + c)
  {
  }

  /** A non-empty sequence is its first element in front of the rest. */
  lemma HeadTail<T>(xs: seq<T>)
    requires xs != []
    ensures xs == [xs[0]] + xs[1..]
  {
  }

  /** A sequence of two or more is its first two elements in front of the rest. */
  lemma ConsTwo<T>(xs: seq<T>, e: seq<T>)
    requires |xs| >= 2
    ensures [xs[0]] + ([xs[1]] + (xs[2..] + e)) == xs + e
  {
  }

  /** The parts of a template's pattern are exactly the parts it was built from. */
  lemma TemplateParamsParts(parts: seq<string>)
    requires |parts| % 2 == 1
    requires forall i :: 0 <= i < |parts| ==> parts[i] != [] && NoBrace(parts[i])
    ensures ParamsParts(Template(parts)) == parts
  {
    TemplateSplit(parts);
    var pieces := [[]] + parts + [[]];
    assert pieces[1..|pieces| - 1] == parts;
  }

  lemma TemplateSplitOne(p0: string)
    requires p0 != [] && NoBrace(p0)
    ensures BraceSplit(Template([p0])) == [[], p0, []]
  {
    assert Template([p0]) == "{" + (p0 + "}");
    BraceSplitRun("{", p0 + "}");
    BraceSplitPlain(p0, "}");
    BraceSplitRun("}", []);
    assert "}" + [] == "}";
    assert p0 + [] == p0;
  }

  lemma TemplateCons(parts: seq<string>)
    requires |parts| >= 3 && |parts| % 2 == 1
    ensures Template(parts) == "{" + (parts[0] + ("}" + (parts[1] + Template(parts[2..]))))
  {
    var tail := parts[1] + Template(parts[2..]);
    assert Template(parts) == "{" + parts[0] + "}" + tail;
    Regroup("{", parts[0], "}", tail);
  }

  lemma Regroup(a: string, b: string, c: string, d: string)
    ensures a + b + c + d == a + (b + (c + d))
  {
  }

  /** A brace, a non-empty brace-free text `p`, then `x` whose split starts with an empty piece. */
  lemma SplitBraceThen(b: char, p: string, x: string, z: seq<string>)
    requires IsBrace(b) && p != [] && NoBrace(p)
    requires BraceSplit(x) == [[]] + z
    ensures BraceSplit([b] + (p + x)) == [[]] + ([p] + z)
  {
    BraceSplitRun([b], p + x);
    BraceSplitPlain(p, x);
    assert BraceSplit(x)[1..] == z;
    assert p + [] == p;
  }

  lemma TemplateSplitStep(p0: string, p1: string, x: string, z: seq<string>)
    requires p0 != [] && NoBrace(p0) && p1 != [] && NoBrace(p1)
    requires BraceSplit(x) == [[]] + z
    ensures BraceSplit("{" + (p0 + ("}" + (p1 + x)))) == [[]] + ([p0] + ([p1] + z))
  {
    SplitBraceThen('}', p1, x, z);
    SplitBraceThen('{', p0, "}" + (p1 + x), [p1] + z);
  }

  /** The distinct names of `ps` come back as an array of exactly those pairs. */
  lemma FreshLog(ps: seq<Param>)
    requires forall i, j :: 0 <= i < j < |ps| ==> ps[i].variable != ps[j].variable
    ensures AssignAll([], ps) == Entries(ps)
  {
    AssignAllFresh([], ps);
    assert [] + Entries(ps) == Entries(ps);
  }

  /**
   * End to end: for the pattern declaring `ps` with `delims`, parseParamsData
   * on the values' text returns exactly the pairs of `ps`, in order.
   */
  lemma ParseParamsRoundTrip(ps: seq<Param>, delims: seq<string>)
    requires Separable(ps, delims)
    requires forall j :: 0 <= j < |ps| ==> NoBrace(ps[j].variable)
    requires forall j :: 0 <= j < |delims| ==> NoBrace(delims[j])
    requires forall i, j :: 0 <= i < j < |ps| ==> ps[i].variable != ps[j].variable
    ensures |TemplateParts(ps, delims)| % 2 == 1
    ensures WellFormedPattern(Template(TemplateParts(ps, delims)))
    ensures ParseParams(Template(TemplateParts(ps, delims)), ParamText(ps, delims)) == Entries(ps)
  {
    var parts := TemplateParts(ps, delims);
    TemplateLog(ps, delims);
    FreshLog(ps);
    ParseParamsOf(Template(parts), parts, ParamText(ps, delims), ps);
  }

  /** The template's pattern splits back into its parts, and reading its text logs exactly `ps`. */
  lemma TemplateLog(ps: seq<Param>, delims: seq<string>)
    requires Separable(ps, delims)
    requires forall j :: 0 <= j < |ps| ==> NoBrace(ps[j].variable)
    requires forall j :: 0 <= j < |delims| ==> NoBrace(delims[j])
    ensures |TemplateParts(ps, delims)| % 2 == 1
    ensures ParamsParts(Template(TemplateParts(ps, delims))) == TemplateParts(ps, delims)
    ensures WellFormedParts(TemplateParts(ps, delims))
    ensures ExtractFrom(TemplateParts(ps, delims), ParamText(ps, delims)) == ps
  {
    TemplatePartsShape(ps, delims);
    TemplateParamsParts(TemplateParts(ps, delims));
    ExtractRoundTrip(ps, delims);
  }

  lemma ParseParamsOf(pattern: string, parts: seq<string>, paramString: string, ps: seq<Param>)
    requires ParamsParts(pattern) == parts && WellFormedParts(parts)
    requires ExtractFrom(parts, paramString) == ps && AssignAll([], ps) == Entries(ps)
    ensures WellFormedPattern(pattern) && ParseParams(pattern, paramString) == Entries(ps)
  {
  }

  lemma {:induction false} TemplatePartsShape(ps: seq<Param>, delims: seq<string>)
    requires Separable(ps, delims)
    requires forall j :: 0 <= j < |ps| ==> NoBrace(ps[j].variable)
    requires forall j :: 0 <= j < |delims| ==> NoBrace(delims[j])
    ensures |TemplateParts(ps, delims)| == 2 * |delims| + 1
    ensures |TemplateParts(ps, delims)| % 2 == 1
    ensures forall i :: 0 <= i < |TemplateParts(ps, delims)| ==>
      TemplateParts(ps, delims)[i] != [] && NoBrace(TemplateParts(ps, delims)[i])
    decreases |delims|
  {
    var p := ps[0];
    BlockOfPlain(p);
    if delims != [] {
      SeparableTail(ps, delims);
      NoBraceTail(ps, delims);
      TemplatePartsShape(ps[1..], delims[1..]);
      var later := TemplateParts(ps[1..], delims[1..]);
      assert TemplateParts(ps, delims) == [BlockOf(p), delims[0]] + later;
      PlainCons(BlockOf(p), delims[0], later);
    }
  }

  /** The block of a placeholder with a brace-free name is non-empty and brace-free. */
  lemma BlockOfPlain(p: Param)
    requires Representable(p.value) && NoBrace(p.variable)
    ensures BlockOf(p) != [] && NoBrace(BlockOf(p))
  {
    assert NoBrace("|" + TypeTag(p.value));
    NoBraceConcat(p.variable, "|" + TypeTag(p.value));
    assert BlockOf(p) == p.variable + ("|" + TypeTag(p.value));
  }

  lemma NoBraceTail(ps: seq<Param>, delims: seq<string>)
    requires |ps| == |delims| + 1 && delims != []
    requires forall j :: 0 <= j < |ps| ==> NoBrace(ps[j].variable)
    requires forall j :: 0 <= j < |delims| ==> NoBrace(delims[j])
    ensures forall j :: 0 <= j < |ps| - 1 ==> NoBrace(ps[1..][j].variable)
    ensures forall j :: 0 <= j < |delims| - 1 ==> NoBrace(delims[1..][j])
  {
    forall j | 0 <= j < |ps| - 1 ensures NoBrace(ps[1..][j].variable) {
      assert ps[1..][j] == ps[j + 1];
    }
    forall j | 0 <= j < |delims| - 1 ensures NoBrace(delims[1..][j]) {
      assert delims[1..][j] == delims[j + 1];
    }
  }

  lemma PlainCons(a: string, b: string, rest: seq<string>)
    requires a != [] && NoBrace(a) && b != [] && NoBrace(b)
    requires forall i :: 0 <= i < |rest| ==> rest[i] != [] && NoBrace(rest[i])
    ensures forall i :: 0 <= i < |[a, b] + rest| ==> ([a, b] + rest)[i] != [] && NoBrace(([a, b] + rest)[i])
  {
    forall i | 2 <= i < |[a, b] + rest| ensures ([a, b] + rest)[i] != [] && NoBrace(([a, b] + rest)[i]) {
      assert ([a, b] + rest)[i] == rest[i - 2];
    }
  }

  // ---------------------------------------------------------------------------
  // Behaviour on delimiters the round trip excludes, and the documented example
  // ---------------------------------------------------------------------------

  /**
   * A delimiter "0" is falsy, so its placeholder takes the whole remaining
   * string, while the cursor still moves past the first "0".
   */
  lemma ZeroDelimiterTakesAll(first: string, last: string, a: string, t: string)
    requires '|' in first && '|' in last && '0' !in a
    ensures ExtractFrom([first, "0", last], a + "0" + t)
         == [Param(BlockName(first), Settype(RawString(a + "0" + t), BlockType(first))),
             Param(BlockName(last), Settype(RawString(t), BlockType(last)))]
  {
    var parts := [first, "0", last];
    assert WellFormedParts(parts) by {
      assert parts[2..] == [last];
    }
    assert "0" == ['0'];
    SingleCharFirstAt(a, '0', t);
    AdvancePast(a + "0" + t, "0");
    assert (a + "0" + t)[|a| + 1..] == t;
    assert parts[2..] == [last];
  }

  /**
   * A delimiter longer than one character: the cursor skips only its first
   * character, so the next placeholder's text starts with the rest of the
   * delimiter.
   */
  lemma LongDelimiterLeavesTail(a: string, d: string, t: string)
    requires |d| >= 2 && d[0] !in a
    ensures Advance(a + d + t, d) == d[1..] + t
  {
    var s := a + d + t;
    assert OccursAt(s, d, |a|) by {
      assert s[|a|..|a| + |d|] == d;
    }
    forall j: nat | j < |a| ensures !OccursAt(s, d, j) {
      assert s[j] == a[j];
    }
    assert FirstAt(s, d, |a|);
    AdvancePast(s, d);
    assert s[|a| + 1..] == d[1..] + t;
  }

  /** A run of braces, a non-empty brace-free text `p`, then `x` whose split starts with an empty piece. */
  lemma SplitRunThen(r: string, p: string, x: string, z: seq<string>)
    requires |r| >= 1 && forall i :: 0 <= i < |r| ==> IsBrace(r[i])
    requires p != [] && NoBrace(p)
    requires BraceSplit(x) == [[]] + z
    ensures BraceSplit(r + (p + x)) == [[]] + ([p] + z)
  {
    BraceSplitRun(r, p + x);
    BraceSplitPlain(p, x);
    assert BraceSplit(x)[1..] == z;
    assert p + [] == p;
  }

  /** The pattern `{a}{b}`: the brace run `}{` leaves no delimiter part between the two blocks. */
  lemma AdjacentParts(a: string, b: string)
    requires a != [] && b != [] && NoBrace(a) && NoBrace(b)
    ensures ParamsParts("{" + (a + ("}{" + (b + "}")))) == [a, b]
  {
    var x := "}{" + (b + "}");
    assert BraceSplit("}") == [[]] + [[]] by {
      BraceSplitRun("}", []);
      assert "}" + [] == "}";
    }
    assert BraceSplit(x) == [[]] + ([b] + [[]]) by {
      SplitRunThen("}{", b, "}", [[]]);
    }
    assert BraceSplit("{" + (a + x)) == [[]] + ([a] + ([b] + [[]])) by {
      SplitRunThen("{", a, x, [b] + [[]]);
    }
    var pieces := [[]] + ([a] + ([b] + [[]]));
    assert pieces[1..|pieces| - 1] == [a, b];
  }

  /**
   * With the parts of `{a}{b}`, block `b` serves as the delimiter of `a` and
   * is then read again as the last block: when its text does not occur in the
   * parameter string, `a` gets `false` and `b` reads "".
   */
  lemma AdjacentPlaceholders(a: string, b: string, s: string)
    requires '|' in a && '|' in b
    requires Absent(s, b)
    ensures WellFormedParts([a, b])
    ensures ExtractFrom([a, b], s)
         == [Param(BlockName(a), Settype(RawFalse, BlockType(a))),
             Param(BlockName(b), Settype(RawString([]), BlockType(b)))]
  {
    assert Following([a, b]) == [b];
    assert Truthy(b) by {
      assert b != "0" by { assert '|' !in "0"; }
    }
    RawValueRead(s, Some(b));
    AdvancePast(s, b);
  }

  /** Example: `100x200` under `{width|integer}x{height|integer}` parses to `width ⇒ 100, height ⇒ 200`. */
  lemma ResizeParams()
    ensures WellFormedPattern("{width|integer}x{height|integer}")
    ensures ParseParams("{width|integer}x{height|integer}", "100x200")
         == [Entry("width", VInt(100)), Entry("height", VInt(200))]
  {
    var ps := [Param("width", VInt(100)), Param("height", VInt(200))];
    var delims := ["x"];
    ResizeText();
    ResizeTemplate();
    ResizeSeparable();
    ParseParamsRoundTrip(ps, delims);
    assert ps[1..] == [ps[1]];
    assert Entries(ps) == [Entry("width", VInt(100)), Entry("height", VInt(200))];
  }

  lemma ResizeSeparable()
    ensures Separable([Param("width", VInt(100)), Param("height", VInt(200))], ["x"])
    ensures NoBrace("width") && NoBrace("height") && NoBrace("x")
  {
    ResizeText();
  }

  lemma ResizeText()
    ensures Render(VInt(100)) == "100" && Render(VInt(200)) == "200"
    ensures ParamText([Param("width", VInt(100)), Param("height", VInt(200))], ["x"]) == "100x200"
  {
    assert Digits(10) == "10";
    assert Digits(20) == "20";
  }

  lemma ResizeTemplate()
    ensures Template(TemplateParts([Param("width", VInt(100)), Param("height", VInt(200))], ["x"]))
         == "{width|integer}x{height|integer}"
  {
    ResizeParts();
    ResizeTemplateText();
  }

  lemma ResizeParts()
    ensures TemplateParts([Param("width", VInt(100)), Param("height", VInt(200))], ["x"])
         == ["width|integer", "x", "height|integer"]
  {
    var ps := [Param("width", VInt(100)), Param("height", VInt(200))];
    assert ps[1..] == [Param("height", VInt(200))];
    assert BlockOf(ps[0]) == "width|integer";
    assert BlockOf(ps[1]) == "height|integer";
  }

  lemma ResizeTemplateText()
    ensures Template(["width|integer", "x", "height|integer"]) == "{width|integer}x{height|integer}"
  {
    TemplateThree("width|integer", "x", "height|integer");
  }

  /** The template of a block, a delimiter and a block. */
  lemma TemplateThree(a: string, x: string, b: string)
    ensures Template([a, x, b]) == "{" + a + "}" + (x + ("{" + b + "}" + []))
  {
    assert [a, x, b][2..] == [b];
  }
}
