/**
 * `UriDispatcher` (Dispatcher.php): splits a request path into an id and a
 * list of raw filters, then reads the raw filters two at a time as
 * (filter token, parameter string) pairs and resolves each against a registry
 * of filters, each with a title and a parameter pattern.
 *
 * For the path `/42/resize/100x200` and a registry holding
 * `resize => (Resize, {width|integer}x{height|integer})`, the id is `42` and
 * the single entry is `Ok` with params `width => 100, height => 200`.
 */
module Dispatcher {
  import opened PhpStrings
  import opened UrlCodec
  import opened ParamParsing

  /** A registry entry: `['title' => ..., 'pattern' => ...]`. */
  datatype FilterInfo = FilterInfo(title: string, pattern: string)

  /** One entry of parseFilters' result. */
  datatype FilterData =
    | Parsed(filter: string, params: seq<Entry>)
    | MissingParams(filter: string)
    | SyntaxError
    | NotEnoughInfo

  /** The `status` field of each kind of entry. */
  function Status(d: FilterData): string
  {
    match d
    case Parsed(_, _) => "Ok"
    case MissingParams(f) => "Not enough info to " + f
    case SyntaxError => "Filter syntax error"
    case NotEnoughInfo => "Not enough info"
  }

  /** What parseFilters returns: `false`, or the list of entries. */
  datatype FiltersData = NoFilters | Filters(entries: seq<FilterData>)

  /**
   * The parts the loop of parseParamsData still has to read when its index is
   * `it`: the parts from `it` on, or, once the index has run past the end (an
   * even number of parts), the last part alone.
   */
  function Remaining(parts: seq<string>, it: nat): (rest: seq<string>)
    requires |parts| >= 1 && it <= |parts|
    ensures |rest| >= 1 && rest[0] == parts[if it < |parts| then it else |parts| - 1]
  {
    if it < |parts| then parts[it..] else parts[|parts| - 1..]
  }

  /** One turn of the loop moves two parts on. */
  lemma RemainingStep(parts: seq<string>, it: nat)
    requires it + 1 < |parts|
    ensures Following(Remaining(parts, it)) == Remaining(parts, it + 2)
  {
    if it + 2 < |parts| {
      assert parts[it..][2..] == parts[it + 2..];
    } else {
      assert parts[it..][1..] == parts[|parts| - 1..];
    }
  }

  /**
   * One turn of the loop: the pair read at `it` is assigned, and what is left
   * to read starts two parts on, with the cursor past the delimiter.
   */
  lemma ParamsStep(arr: seq<Entry>, parts: seq<string>, it: nat, s: string)
    requires it + 1 < |parts| && WellFormedParts(Remaining(parts, it))
    ensures WellFormedParts(Remaining(parts, it + 2))
    ensures var p := GetParamData(parts[it], s, Some(parts[it + 1]));
      AssignAll(arr, ExtractFrom(Remaining(parts, it), s))
        == AssignAll(Assign(arr, p.variable, p.value), ExtractFrom(Remaining(parts, it + 2), Advance(s, parts[it + 1])))
  {
    var r := Remaining(parts, it);
    assert r[0] == parts[it] && r[1] == parts[it + 1];
    RemainingStep(parts, it);
    AssignPairThen(arr, r, s);
  }

  /** After the loop only the last part is left, read without a delimiter. */
  lemma ParamsEnd(arr: seq<Entry>, parts: seq<string>, it: nat, s: string)
    requires |parts| >= 1 && |parts| - 1 <= it <= |parts| && WellFormedParts(Remaining(parts, it))
    ensures var p := GetParamData(parts[|parts| - 1], s, None);
      AssignAll(arr, ExtractFrom(Remaining(parts, it), s)) == Assign(arr, p.variable, p.value)
  {
    RemainingLast(parts, it);
    AssignLast(arr, [parts[|parts| - 1]], s);
  }

  lemma RemainingLast(parts: seq<string>, it: nat)
    requires |parts| >= 1 && |parts| - 1 <= it <= |parts|
    ensures Remaining(parts, it) == [parts[|parts| - 1]]
  {
  }

  /** A path built from segments without `/` splits back into exactly those segments. */
  lemma PathSegments(id: string, filters: seq<string>)
    requires '/' !in id && forall i :: 0 <= i < |filters| ==> '/' !in filters[i]
    ensures Explode(Substr1(Some("/" + Implode([id] + filters, '/'))), '/') == [id] + filters
  {
    var segs := [id] + filters;
    forall i | 0 <= i < |segs| ensures '/' !in segs[i] {
      if i > 0 { assert segs[i] == filters[i - 1]; }
    }
    assert ("/" + Implode(segs, '/'))[1..] == Implode(segs, '/');
    ExplodeImplode(segs, '/');
  }

  /**
   * The body of parseParamsData once the pattern and the parameter string are
   * looked up: split the pattern into parts, read each placeholder up to its
   * delimiter and move the cursor past it, then read the last placeholder
   * from what is left.
   */
  method ReadParams(pattern: string, paramString: string) returns (params: seq<Entry>)
    requires WellFormedPattern(pattern)
    ensures params == ParseParams(pattern, paramString)
  {
    var cursor := paramString;
    var paramsParts := ParamsParts(pattern);
    params := [];
    var paramsPartsCnt := |paramsParts|;
    var it: nat := 0;
    assert Remaining(paramsParts, 0) == paramsParts;
    while it < paramsPartsCnt - 1
      invariant it <= paramsPartsCnt
      invariant WellFormedParts(Remaining(paramsParts, it))
      invariant AssignAll(params, ExtractFrom(Remaining(paramsParts, it), cursor)) == ParseParams(pattern, paramString)
    {
      var delimiter := paramsParts[it + 1];
      var paramData := GetParamData(paramsParts[it], cursor, Some(delimiter));
      ParamsStep(params, paramsParts, it, cursor);
      cursor := Advance(cursor, delimiter);
      params := Assign(params, paramData.variable, paramData.value);
      it := it + 2;
    }
    var paramData := GetParamData(paramsParts[paramsPartsCnt - 1], cursor, None);
    ParamsEnd(params, paramsParts, it, cursor);
    params := Assign(params, paramData.variable, paramData.value);
  }

  class UriDispatcher {
    var path: string
    var filterList: map<string, FilterInfo>
    var id: string
    var pathParts: seq<string>
    var rawFilters: seq<string>

    /**
     * The path is the decoded URI; its first character (the leading `/`) is
     * cut and the rest split on `/`: the first segment is the id, the others
     * are the raw filters.
     */
    constructor (uri: string, filterList: map<string, FilterInfo>)
      ensures path == RawUrlDecode(uri)
      ensures pathParts == Explode(Substr1(Some(path)), '/')
      ensures [id] + rawFilters == pathParts
      ensures Implode([id] + rawFilters, '/') == Substr1(Some(path))
      ensures '/' !in id && forall i :: 0 <= i < |rawFilters| ==> '/' !in rawFilters[i]
      ensures this.filterList == filterList
    {
      var decoded := RawUrlDecode(uri);
      var parts := Explode(Substr1(Some(decoded)), '/');
      path := decoded;
      pathParts := parts;
      id := parts[0];
      rawFilters := parts[1..];
      this.filterList := filterList;
      ImplodeExplode(Substr1(Some(decoded)), '/');
      ExplodePieces(Substr1(Some(decoded)), '/');
      assert [parts[0]] + parts[1..] == parts;
      forall i | 0 <= i < |parts| - 1 ensures '/' !in parts[1..][i] {
        assert parts[1..][i] == parts[i + 1];
      }
    }

    /** `$this->rawFilters[$i]`; a missing index reads as null, which behaves as "" here. */
    function RawFilterAt(i: nat): string
      reads this
    {
      if i < |rawFilters| then rawFilters[i] else []
    }

    /** A known filter token followed by parameters has a well-formed pattern. */
    predicate Resolvable(filterId: nat)
      reads this
    {
      var token := RawFilterAt(filterId);
      token in filterList && |RawFilterAt(filterId + 1)| > 0 ==> WellFormedPattern(filterList[token].pattern)
    }

    /** Every pair that parseFilters reads is resolvable. */
    predicate AllResolvable()
      reads this
    {
      forall filterId: nat :: filterId + 1 < |rawFilters| && filterId % 2 == 0 ==> Resolvable(filterId)
    }

    /**
     * The entry for the pair at `filterId`: a syntax error for an unknown
     * token, "not enough info" for an empty parameter string, otherwise the
     * filter's title and the parameters its pattern reads.
     */
    function FilterDataAt(filterId: nat): FilterData
      reads this
      requires Resolvable(filterId)
    {
      var token := RawFilterAt(filterId);
      if token in filterList then
        var info := filterList[token];
        var paramString := RawFilterAt(filterId + 1);
        if |paramString| > 0 then Parsed(info.title, ParseParams(info.pattern, paramString))
        else MissingParams(info.title)
      else SyntaxError
    }

    /**
     * What the entry at `filterId` says: which of the three cases applies,
     * its status and title, and for a parsed entry the parameters the
     * filter's pattern reads, keyed by its placeholder names.
     */
    lemma FilterDataCases(filterId: nat)
      requires Resolvable(filterId)
      ensures var d := FilterDataAt(filterId);
        && (d.SyntaxError? <==> RawFilterAt(filterId) !in filterList)
        && (d.MissingParams? <==> RawFilterAt(filterId) in filterList && RawFilterAt(filterId + 1) == [])
        && (d.Parsed? <==> RawFilterAt(filterId) in filterList && RawFilterAt(filterId + 1) != [])
        && (d.Parsed? || d.MissingParams? ==> d.filter == filterList[RawFilterAt(filterId)].title)
        && (d.SyntaxError? ==> Status(d) == "Filter syntax error")
        && (d.MissingParams? ==> Status(d) == "Not enough info to " + filterList[RawFilterAt(filterId)].title)
        && (d.Parsed? ==> Status(d) == "Ok")
        && (d.Parsed? ==>
          var pattern := filterList[RawFilterAt(filterId)].pattern;
          && WellFormedPattern(pattern)
          && d.params == ParseParams(pattern, RawFilterAt(filterId + 1))
          && Keys(d.params) == AppendNew([], PlaceholderNames(ParamsParts(pattern))))
    {
      var token := RawFilterAt(filterId);
      if token in filterList && |RawFilterAt(filterId + 1)| > 0 {
        ParamsKeys(filterList[token].pattern, RawFilterAt(filterId + 1));
      }
    }

    /** parseParamsData: reads the parameter string after `filterId` by its filter's pattern. */
    method ParseParamsData(filterId: nat) returns (params: seq<Entry>)
      requires RawFilterAt(filterId) in filterList
      requires WellFormedPattern(filterList[RawFilterAt(filterId)].pattern)
      ensures params == ParseParams(filterList[RawFilterAt(filterId)].pattern, RawFilterAt(filterId + 1))
    {
      var paramString := RawFilterAt(filterId + 1);
      var pattern := filterList[RawFilterAt(filterId)].pattern;
      params := ReadParams(pattern, paramString);
    }

    /** parseFilterData: the entry for the pair of raw filters at `filterId`. */
    method ParseFilterData(filterId: nat) returns (data: FilterData)
      requires Resolvable(filterId)
      ensures data == FilterDataAt(filterId)
    {
      if RawFilterAt(filterId) in filterList {
        var filter := filterList[RawFilterAt(filterId)].title;
        if |RawFilterAt(filterId + 1)| > 0 {
          var params := ParseParamsData(filterId);
          data := Parsed(filter, params);
        } else {
          data := MissingParams(filter);
        }
      } else {
        data := SyntaxError;
      }
    }

    /** The entries for the first `n` pairs of raw filters. */
    function PairEntries(n: nat): (es: seq<FilterData>)
      reads this
      requires AllResolvable() && 2 * n <= |rawFilters|
      ensures |es| == n
    {
      if n == 0 then []
      else
        PairResolvable(n - 1);
        PairEntries(n - 1) + [FilterDataAt(2 * (n - 1))]
    }

    /** Pair `k` is one of those parseFilters reads. */
    lemma PairResolvable(k: nat)
      requires AllResolvable() && 2 * k + 1 < |rawFilters|
      ensures Resolvable(2 * k)
    {
      var filterId: nat := 2 * k;
      assert filterId % 2 == 0;
    }

    /** Entry `i` of `PairEntries(n)` is the entry for raw filters 2i and 2i+1. */
    lemma {:induction false} PairEntriesAt(n: nat, i: nat)
      requires AllResolvable() && 2 * n <= |rawFilters| && i < n
      ensures PairEntries(n)[i] == FilterDataAt(2 * i)
    {
      if i < n - 1 {
        PairEntriesAt(n - 1, i);
      }
    }

    /**
     * parseFilters: `false` without raw filters; a lone "not enough info"
     * entry for a single one; otherwise one entry per pair, an odd trailing
     * token being ignored.
     */
    method ParseFilters() returns (r: FiltersData)
      requires AllResolvable()
      ensures r.NoFilters? <==> |rawFilters| == 0
      ensures |rawFilters| == 1 ==> r == Filters([NotEnoughInfo])
      ensures |rawFilters| >= 2 ==> r == Filters(PairEntries(|rawFilters| / 2))
    {
      var rawFiltersCount := |rawFilters|;
      if rawFiltersCount == 0 {
        r := NoFilters;
      } else {
        var filtersData: seq<FilterData> := [];
        if rawFiltersCount == 1 {
          filtersData := [NotEnoughInfo];
        }
        var filterId: nat := 0;
        ghost var pairs: nat := 0;
        while filterId < rawFiltersCount - 1
          invariant filterId == 2 * pairs <= rawFiltersCount
          invariant rawFiltersCount == 1 ==> filtersData == [NotEnoughInfo]
          invariant rawFiltersCount >= 2 ==> filtersData == PairEntries(pairs)
        {
          PairResolvable(pairs);
          var data := ParseFilterData(filterId);
          filtersData := filtersData + [data];
          filterId := filterId + 2;
          pairs := pairs + 1;
        }
        r := Filters(filtersData);
      }
    }
  }
}
