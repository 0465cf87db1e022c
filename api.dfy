// The query-string serialiser shared by the report calls of the web client,
// and the comma split the server applies to list parameters.

module Api {
  import opened Text

  /** The values a request parameter object can hold. */
  datatype JsValue = Undefined | Null | Str(s: string) | Num(n: int) | Bool(b: bool) | Arr(items: seq<string>)

  /** JavaScript truthiness: undefined, null, '', 0 and false are falsy; every array is truthy. */
  predicate Truthy(v: JsValue)
  {
    match v
    case Undefined => false
    case Null => false
    case Str(s) => s != ""
    case Num(n) => n != 0
    case Bool(b) => b
    case Arr(_) => true
  }

  /** A parameter is sent when it is truthy and is not an empty array. */
  predicate Sent(v: JsValue)
  {
    Truthy(v) && !(v.Arr? && |v.items| == 0)
  }

  /** The text under which a value is sent: arrays joined by ',', other values
      converted to a string. */
  function Render(v: JsValue): string
  {
    match v
    case Undefined => "undefined"
    case Null => "null"
    case Str(s) => s
    case Num(n) => IntText(n)
    case Bool(b) => if b then "true" else "false"
    case Arr(items) => Join(items, ',')
  }

  /** The parameter object, as its keys in iteration order with their values. */
  type Params = seq<(string, JsValue)>

  /** The (key, value) entries the serialiser appends, in order. */
  function QueryEntries(params: Params): seq<(string, string)>
    decreases |params|
  {
    if params == [] then []
    else
      var (key, v) := params[|params| - 1];
      QueryEntries(params[..|params| - 1]) + (if Sent(v) then [(key, Render(v))] else [])
  }

  /** Walks the keys of the parameter object and appends the entries to send. */
  method BuildQueryParams(params: Params) returns (query: seq<(string, string)>)
    ensures query == QueryEntries(params)
  {
    query := [];
    for i := 0 to |params|
      invariant query == QueryEntries(params[..i])
    {
      var (key, v) := params[i];
      assert params[..i + 1][..i] == params[..i];
      if Truthy(v) {
        if v.Arr? && |v.items| > 0 {
          query := query + [(key, Join(v.items, ','))];
        } else if !v.Arr? {
          query := query + [(key, Render(v))];
        }
      }
    }
    assert params[..|params|] == params;
  }

  /** The keys of a parameter object are distinct. */
  predicate DistinctKeys(params: Params)
  {
    forall i, j :: 0 <= i < j < |params| ==> params[i].0 != params[j].0
  }

  /** An entry (k, t) is sent exactly when some parameter with key k is sent and renders as t. */
  lemma {:induction false} EntrySent(params: Params, k: string, t: string)
    ensures (k, t) in QueryEntries(params) <==>
              exists i :: 0 <= i < |params| && params[i].0 == k && Sent(params[i].1) && Render(params[i].1) == t
    decreases |params|
  {
    if params != [] {
      var n := |params| - 1;
      var front := params[..n];
      EntrySent(front, k, t);
      assert forall i :: 0 <= i < n ==> front[i] == params[i];
      var q := QueryEntries(params);
      if (k, t) in q && (k, t) !in QueryEntries(front) {
        assert params[n].0 == k && Sent(params[n].1) && Render(params[n].1) == t;
      }
      if exists i :: 0 <= i < |params| && params[i].0 == k && Sent(params[i].1) && Render(params[i].1) == t {
        var i :| 0 <= i < |params| && params[i].0 == k && Sent(params[i].1) && Render(params[i].1) == t;
        if i == n {
          assert q[|q| - 1] == (k, t);
        } else {
          assert front[i] == params[i];
        }
      }
    }
  }

  /** A falsy value or an empty array puts no entry under its key. */
  lemma OmittedKey(params: Params, i: nat, t: string)
    requires DistinctKeys(params)
    requires i < |params| && !Sent(params[i].1)
    ensures (params[i].0, t) !in QueryEntries(params)
  {
    EntrySent(params, params[i].0, t);
  }

  /** The number of entries produced by the first `n` parameters: the position
      at which the entry of parameter `n` lands. */
  function Position(params: Params, n: nat): nat
    requires n <= |params|
  {
    |QueryEntries(params[..n])|
  }

  /** A sent parameter lands at its position, and every later parameter lands after it. */
  lemma {:induction false} EntryAtPosition(params: Params, i: nat, n: nat)
    requires i < n <= |params| && Sent(params[i].1)
    ensures Position(params, i) < Position(params, n) <= |QueryEntries(params)|
    ensures QueryEntries(params[..n])[Position(params, i)] == (params[i].0, Render(params[i].1))
    decreases n
  {
    var pn := params[..n];
    assert pn[..n - 1] == params[..n - 1];
    if i == n - 1 {
      assert pn[n - 1] == params[i];
    } else {
      EntryAtPosition(params, i, n - 1);
    }
    PrefixLength(params, n);
  }

  /** The entries of a prefix of the parameters are a prefix of the entries. */
  lemma {:induction false} PrefixLength(params: Params, n: nat)
    requires n <= |params|
    ensures |QueryEntries(params[..n])| <= |QueryEntries(params)|
    ensures QueryEntries(params[..n]) == QueryEntries(params)[..|QueryEntries(params[..n])|]
    decreases |params| - n
  {
    if n < |params| {
      var m := |params| - 1;
      assert params[..m][..n] == params[..n];
      PrefixLength(params[..m], n);
      var qm := QueryEntries(params[..m]);
      var l := |QueryEntries(params[..n])|;
      assert QueryEntries(params)[..|qm|] == qm;
      assert QueryEntries(params)[..l] == qm[..l];
    } else {
      assert params[..n] == params;
    }
  }

  /** With distinct keys, every key appears at most once in the query. */
  lemma {:induction false} KeysOnce(params: Params)
    requires DistinctKeys(params)
    ensures forall a, b :: 0 <= a < b < |QueryEntries(params)| ==> QueryEntries(params)[a].0 != QueryEntries(params)[b].0
    decreases |params|
  {
    if params != [] {
      var n := |params| - 1;
      var front := params[..n];
      assert DistinctKeys(front) by {
        assert forall i :: 0 <= i < n ==> front[i] == params[i];
      }
      KeysOnce(front);
      var q := QueryEntries(params);
      var qf := QueryEntries(front);
      if Sent(params[n].1) {
        forall a | 0 <= a < |qf|
          ensures qf[a].0 != params[n].0
        {
          EntrySent(front, qf[a].0, qf[a].1);
          assert qf[a] in qf;
          var j :| 0 <= j < n && front[j].0 == qf[a].0 && Sent(front[j].1) && Render(front[j].1) == qf[a].1;
          assert front[j] == params[j];
        }
      }
    }
  }

  /** The server splits a list parameter on ','; for comma-free items it gets the list back. */
  lemma ListRoundTrip(items: seq<string>)
    requires |items| > 0
    requires forall i :: 0 <= i < |items| ==> ',' !in items[i]
    ensures Sent(Arr(items))
    ensures Split(Render(Arr(items)), ',') == items
  {
    SplitJoin(items, ',');
  }
}
