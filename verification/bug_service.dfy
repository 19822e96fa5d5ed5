/** How the client's bug service builds the address it fetches the bug
    list from: the API base address, `/bugs`, and a query string holding
    the filters that are set. The fetch itself is not modelled. */
module BugService {
  import opened Wrappers
  import opened Js
  import Strings
  import FormUrlEncoded

  const DefaultApiBase := "http://localhost:5000/api"

  /** `process.env.REACT_APP_API_URL || 'http://localhost:5000/api'`;
      `env` is the variable, `None` when it is not set. An empty value is
      falsy and falls back to the default too. */
  function ApiBaseUrl(env: Option<string>): (base: string)
    ensures base != ""
    ensures base == DefaultApiBase || (env.Some? && base == env.value)
    ensures base == DefaultApiBase <==> env.None? || env.value == "" || env.value == DefaultApiBase
    ensures env.Some? && env.value != "" ==> base == env.value
    ensures env.None? || env.value == "" ==> base == DefaultApiBase
  {
    match env
    case Some(v) => if v != "" then v else DefaultApiBase
    case None => DefaultApiBase
  }

  /** The filter object passed to `getAllBugs`; an absent key is
      `Undefined`. */
  datatype Filters = Filters(status: JsValue, priority: JsValue, sortBy: JsValue)

  /** `filters = {}`, the default argument. */
  const NoFilters := Filters(Undefined, Undefined, Undefined)

  datatype FilterKey = StatusKey | PriorityKey | SortByKey

  /** The order in which the filters are appended. */
  const KeyOrder: seq<FilterKey> := [StatusKey, PriorityKey, SortByKey]

  function Name(k: FilterKey): string {
    match k
    case StatusKey => "status"
    case PriorityKey => "priority"
    case SortByKey => "sortBy"
  }

  function Value(f: Filters, k: FilterKey): JsValue {
    match k
    case StatusKey => f.status
    case PriorityKey => f.priority
    case SortByKey => f.sortBy
  }

  function Rank(k: FilterKey): (i: nat)
    ensures i < |KeyOrder| && KeyOrder[i] == k
  {
    match k
    case StatusKey => 0
    case PriorityKey => 1
    case SortByKey => 2
  }

  /** The keys of the filters that are set (truthy). */
  function Selected(f: Filters): (ks: seq<FilterKey>)
    ensures forall k :: k in ks <==> Truthy(Value(f, k))
    ensures forall i, j :: 0 <= i < j < |ks| ==> Rank(ks[i]) < Rank(ks[j])
  {
    (if Truthy(f.status) then [StatusKey] else [])
    + (if Truthy(f.priority) then [PriorityKey] else [])
    + (if Truthy(f.sortBy) then [SortByKey] else [])
  }

  /** The `(name, value)` pairs appended to the `URLSearchParams`: one for
      each filter that is set, in the order status, priority, sortBy, with
      the value converted by `String`. No name occurs twice, and a name
      occurs exactly when its filter is set. */
  function QueryPairs(f: Filters): (pairs: seq<(string, string)>)
    ensures |pairs| <= |KeyOrder|
    ensures forall k :: Truthy(Value(f, k)) <==> exists i :: 0 <= i < |pairs| && pairs[i].0 == Name(k)
    ensures forall i, k :: 0 <= i < |pairs| && pairs[i].0 == Name(k) ==> pairs[i].1 == ToString(Value(f, k))
    ensures forall i, j :: 0 <= i < j < |pairs| ==> pairs[i].0 != pairs[j].0
    ensures var ks := Selected(f);
            |pairs| == |ks|
            && forall i :: 0 <= i < |ks| ==> pairs[i] == (Name(ks[i]), ToString(Value(f, ks[i])))
  {
    var ks := Selected(f);
    var pairs := seq(|ks|, i requires 0 <= i < |ks| => (Name(ks[i]), ToString(Value(f, ks[i]))));
    PairsOfSelected(f, ks, pairs);
    pairs
  }

  lemma PairsOfSelected(f: Filters, ks: seq<FilterKey>, pairs: seq<(string, string)>)
    requires ks == Selected(f) && |pairs| == |ks|
    requires forall i :: 0 <= i < |ks| ==> pairs[i] == (Name(ks[i]), ToString(Value(f, ks[i])))
    ensures |pairs| <= |KeyOrder|
    ensures forall k :: Truthy(Value(f, k)) <==> exists i :: 0 <= i < |pairs| && pairs[i].0 == Name(k)
    ensures forall i, k :: 0 <= i < |pairs| && pairs[i].0 == Name(k) ==> pairs[i].1 == ToString(Value(f, k))
    ensures forall i, j :: 0 <= i < j < |pairs| ==> pairs[i].0 != pairs[j].0
  {
    forall k ensures Truthy(Value(f, k)) <==> exists i :: 0 <= i < |pairs| && pairs[i].0 == Name(k) {
      if Truthy(Value(f, k)) {
        var i :| 0 <= i < |ks| && ks[i] == k;
        assert pairs[i].0 == Name(k);
      }
      if exists i :: 0 <= i < |pairs| && pairs[i].0 == Name(k) {
        var i :| 0 <= i < |pairs| && pairs[i].0 == Name(k);
        NameInjective(ks[i], k);
        assert ks[i] in ks;
      }
    }
    forall i, k | 0 <= i < |pairs| && pairs[i].0 == Name(k) ensures pairs[i].1 == ToString(Value(f, k)) {
      NameInjective(ks[i], k);
    }
    forall i, j | 0 <= i < j < |pairs| ensures pairs[i].0 != pairs[j].0 {
      NameInjective(ks[i], ks[j]);
    }
  }

  lemma NameInjective(a: FilterKey, b: FilterKey)
    ensures Name(a) == Name(b) <==> a == b
  {
  }

  /** The address `getAllBugs` fetches. The query string is added only
      when it is not empty, that is when some filter is set. */
  function BugsUrl(base: string, f: Filters): (url: string)
    ensures Selected(f) == [] ==> url == base + "/bugs"
    ensures Selected(f) != [] ==>
              exists q :: q != "" && url == base + "/bugs?" + q && '?' !in q && '#' !in q
  {
    var query := FormUrlEncoded.Serialize(QueryPairs(f));
    if query != "" then
      QueryHasNoQuestionMark(f);
      base + "/bugs?" + query
    else base + "/bugs"
  }

  /** The query string of a filter object. */
  function Query(f: Filters): string {
    FormUrlEncoded.Serialize(QueryPairs(f))
  }

  lemma QueryHasNoQuestionMark(f: Filters)
    ensures '?' !in Query(f) && '#' !in Query(f)
    ensures Query(f) == "" <==> Selected(f) == []
  {
    var pairs := QueryPairs(f);
    if pairs != [] {
      var texts := FormUrlEncoded.PairTexts(pairs);
      forall i | 0 <= i < |texts| ensures '?' !in texts[i] && '#' !in texts[i] {
        FormUrlEncoded.PairTextShape(pairs[i].0, pairs[i].1);
        FormUrlEncoded.EncodeHasNoDelimiters(pairs[i].0);
        FormUrlEncoded.EncodeHasNoDelimiters(pairs[i].1);
        AssignmentHasNo(FormUrlEncoded.Encode(pairs[i].0), FormUrlEncoded.Encode(pairs[i].1), '#');
      }
      JoinAvoids(texts, "&", '?');
      JoinAvoids(texts, "&", '#');
    }
  }

  lemma AssignmentHasNo(a: string, b: string, c: char)
    requires c !in a && c !in b && c != '='
    ensures c !in a + "=" + b
  {
    var t := a + "=" + b;
    forall i | 0 <= i < |t| ensures t[i] != c {
      if i < |a| {
        assert t[i] == a[i];
      } else if i > |a| {
        assert t[i] == b[i - |a| - 1];
      }
    }
  }

  /** A join holds a character only if a piece or the separator does. */
  lemma {:induction false} JoinAvoids(parts: seq<string>, sep: string, c: char)
    requires forall i :: 0 <= i < |parts| ==> c !in parts[i]
    requires c !in sep
    ensures c !in Strings.Join(parts, sep)
  {
    if |parts| > 1 {
      JoinAvoids(parts[1..], sep, c);
      var rest := Strings.Join(parts[1..], sep);
      var t := parts[0] + sep + rest;
      forall i | 0 <= i < |t| ensures t[i] != c {
        if i < |parts[0]| {
          assert t[i] == parts[0][i];
        } else if i < |parts[0]| + |sep| {
          assert t[i] == sep[i - |parts[0]|];
        } else {
          assert t[i] == rest[i - |parts[0]| - |sep|];
        }
      }
    }
  }

  /** The address holds one `?` more than the base address exactly when
      some filter is set. */
  lemma QuestionMarks(base: string, f: Filters)
    ensures Strings.Occurrences(BugsUrl(base, f), '?')
              == Strings.Occurrences(base, '?') + (if Selected(f) == [] then 0 else 1)
  {
    QueryHasNoQuestionMark(f);
    var q := Query(f);
    Strings.OccurrencesConcat(base, "/bugs", '?');
    if Selected(f) != [] {
      Strings.OccurrencesConcat(base + "/bugs?", q, '?');
      Strings.OccurrencesConcat(base, "/bugs?", '?');
      assert BugsUrl(base, f) == base + "/bugs?" + q;
    }
  }

  /** Round trip: when the base address has no `?`, cutting the address at
      `?` and parsing the query the way `URLSearchParams` does gives back
      every filter that is set, in order, as the UTF-8 bytes of its name
      and of its `String` value. */
  lemma UrlRoundTrip(base: string, f: Filters)
    requires '?' !in base
    ensures var parts := Strings.Split(BugsUrl(base, f), '?');
            parts[0] == base + "/bugs"
            && (|parts| == 1 <==> Selected(f) == [])
            && (|parts| == 2 ==> FormUrlEncoded.Parse(parts[1]) == FormUrlEncoded.PairBytes(QueryPairs(f)))
  {
    var path := base + "/bugs";
    assert '?' !in path by {
      forall i | 0 <= i < |path| ensures path[i] != '?' {
        if i < |base| { assert path[i] == base[i]; }
      }
    }
    QueryHasNoQuestionMark(f);
    var q := Query(f);
    if Selected(f) == [] {
      Strings.SplitNoSeparator(path, '?');
    } else {
      assert BugsUrl(base, f) == path + ['?'] + q;
      Strings.SplitAfterFirst(path, '?', q);
      Strings.SplitNoSeparator(q, '?');
      FormUrlEncoded.ParseSerialize(QueryPairs(f));
    }
  }

  /** Filter values made of letters, digits and `*-._` (the accepted
      statuses, for instance) appear in the query as they are. */
  lemma PlainValuesUnchanged(f: Filters)
    requires forall k :: Truthy(Value(f, k)) ==>
               forall i :: 0 <= i < |ToString(Value(f, k))| ==> FormUrlEncoded.IsUnreserved(ToString(Value(f, k))[i])
    ensures var pairs := QueryPairs(f);
            Strings.Join(FormUrlEncoded.PairTexts(pairs), "&")
              == Strings.Join(seq(|pairs|, i requires 0 <= i < |pairs| => pairs[i].0 + "=" + pairs[i].1), "&")
  {
    var pairs := QueryPairs(f);
    var ks := Selected(f);
    var texts := FormUrlEncoded.PairTexts(pairs);
    var plain := seq(|pairs|, i requires 0 <= i < |pairs| => pairs[i].0 + "=" + pairs[i].1);
    forall i | 0 <= i < |pairs| ensures texts[i] == plain[i] {
      var k := ks[i];
      assert k in ks;
      NameUnreserved(k);
      FormUrlEncoded.EncodeUnreserved(pairs[i].0);
      FormUrlEncoded.EncodeUnreserved(pairs[i].1);
    }
    assert texts == plain;
  }

  lemma NameUnreserved(k: FilterKey)
    ensures forall i :: 0 <= i < |Name(k)| ==> FormUrlEncoded.IsUnreserved(Name(k)[i])
  {
  }

  /** Without filters the list is fetched from `<base>/bugs`. */
  lemma DefaultUrl(env: Option<string>)
    requires env.None? || env.value == ""
    ensures BugsUrl(ApiBaseUrl(env), NoFilters) == "http://localhost:5000/api/bugs"
  {
  }
}
