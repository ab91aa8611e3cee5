/** `parseQuery`: turns `a=b&c=d` into a map from parameter name to value. */
module Query {
  import opened Wrappers
  import opened JavaSplit

  /** The key and value of a `&`-separated segment, when splitting it on `=`
      gives exactly two parts; `None` for every other segment. */
  function PairOf(param: string): Option<(string, string)> {
    var parts := Split(param, '=');
    if |parts| == 2 then Some((parts[0], parts[1])) else None
  }

  /** The pair of each segment, in order. */
  function PairsOf(params: seq<string>): (r: seq<Option<(string, string)>>)
    ensures |r| == |params| && forall i | 0 <= i < |params| :: r[i] == PairOf(params[i])
  {
    seq(|params|, i requires 0 <= i < |params| => PairOf(params[i]))
  }

  /** One step of the loop: a pair overwrites any earlier value of its key,
      and a segment without a pair adds nothing. */
  function AddPair(m: map<string, string>, pair: Option<(string, string)>): map<string, string> {
    if pair.None? then m else m[pair.value.0 := pair.value.1]
  }

  /** The map built from the pairs, taken in order. */
  function Collect(pairs: seq<Option<(string, string)>>): map<string, string>
    decreases |pairs|
  {
    if |pairs| == 0 then map[] else AddPair(Collect(pairs[..|pairs| - 1]), pairs[|pairs| - 1])
  }

  /** What `parseQuery` returns; `None` is a `null` query. */
  function QueryMap(query: Option<string>): map<string, string> {
    if query.None? || query.value == "" then map[] else Collect(PairsOf(Split(query.value, '&')))
  }

  method ParseQuery(query: Option<string>) returns (result: map<string, string>)
    ensures query.None? || query.value == "" ==> result == map[]
    ensures result == QueryMap(query)
  {
    result := map[];
    if query.None? || query.value == "" {
      return;
    }
    var params := Split(query.value, '&');
    ghost var pairs := PairsOf(params);
    for i := 0 to |params|
      invariant result == Collect(pairs[..i])
    {
      var pair := Split(params[i], '=');
      ghost var before := result;
      if |pair| == 2 {
        result := result[pair[0] := pair[1]];
      }
      assert result == AddPair(before, pairs[i]);
      assert pairs[..i + 1][..i] == pairs[..i];
    }
    assert pairs[..|params|] == pairs;
  }

  /** A key takes the value of the last pair that binds it. */
  lemma {:induction false} LastPairWins(pairs: seq<Option<(string, string)>>, i: nat, k: string, v: string)
    requires i < |pairs| && pairs[i] == Some((k, v))
    requires forall j | i < j < |pairs| :: pairs[j].None? || pairs[j].value.0 != k
    ensures k in Collect(pairs) && Collect(pairs)[k] == v
    decreases |pairs|
  {
    var last := |pairs| - 1;
    var prefix := pairs[..last];
    if i < last {
      assert prefix[i] == pairs[i];
      assert forall j | i < j < |prefix| :: prefix[j] == pairs[j];
      LastPairWins(prefix, i, k, v);
    }
  }

  /** Every key in the map comes from some pair, and carries that pair's
      value. */
  lemma {:induction false} OnlyPairsBind(pairs: seq<Option<(string, string)>>, k: string)
    requires k in Collect(pairs)
    ensures exists i | 0 <= i < |pairs| :: pairs[i] == Some((k, Collect(pairs)[k]))
    decreases |pairs|
  {
    var last := |pairs| - 1;
    var prefix := pairs[..last];
    if pairs[last].Some? && pairs[last].value.0 == k {
      assert pairs[last] == Some((k, Collect(pairs)[k]));
    } else {
      OnlyPairsBind(prefix, k);
      var i :| 0 <= i < |prefix| && prefix[i] == Some((k, Collect(prefix)[k]));
      assert pairs[i] == prefix[i];
    }
  }

  /** In a query, a key takes the value of the last `&`-segment that binds
      it. */
  lemma LaterSegmentWins(q: string, i: nat, k: string, v: string)
    requires q != ""
    requires i < |Split(q, '&')| && PairOf(Split(q, '&')[i]) == Some((k, v))
    requires forall j | i < j < |Split(q, '&')| ::
               PairOf(Split(q, '&')[j]).None? || PairOf(Split(q, '&')[j]).value.0 != k
    ensures k in QueryMap(Some(q)) && QueryMap(Some(q))[k] == v
  {
    var pairs := PairsOf(Split(q, '&'));
    LastPairWins(pairs, i, k, v);
  }

  /** Every key of a parsed query comes from an `&`-segment that splits on `=`
      into exactly two parts, the key and its value. */
  lemma OnlyTwoPartSegmentsBind(q: string, k: string)
    requires k in QueryMap(Some(q))
    ensures q != ""
    ensures exists i | 0 <= i < |Split(q, '&')| ::
              var parts := Split(Split(q, '&')[i], '=');
              |parts| == 2 && parts[0] == k && parts[1] == QueryMap(Some(q))[k]
  {
    var segments := Split(q, '&');
    OnlyPairsBind(PairsOf(segments), k);
    var i :| 0 <= i < |segments| && PairsOf(segments)[i] == Some((k, QueryMap(Some(q))[k]));
    assert PairOf(segments[i]) == Some((k, QueryMap(Some(q))[k]));
  }

  /** `key=value` is a pair, and so is `key=value=`: Java drops the trailing
      empty string. */
  lemma PairOfShape(key: string, value: string, n: nat)
    requires '=' !in key && '=' !in value && value != ""
    ensures PairOf(key + "=" + value + Repeat('=', n)) == Some((key, value))
  {
    SplitPair(key, '=', value, n);
  }

  /** A segment with nothing after its `=` signs is not a pair. */
  lemma NoValueNoPair(key: string, n: nat)
    requires '=' !in key && n > 0
    ensures PairOf(key + Repeat('=', n)) == None
  {
    SplitMissingValue(key, '=', n);
  }

  /** A query that is one `key=value` pair yields exactly that entry. */
  lemma SinglePair(key: string, value: string)
    requires '&' !in key && '=' !in key && '&' !in value && '=' !in value && value != ""
    ensures QueryMap(Some(key + "=" + value)) == map[key := value]
  {
    var q := key + "=" + value;
    assert q == key + "=" + value + Repeat('=', 0);
    PairOfShape(key, value, 0);
    assert '&' !in q && q != "";
    assert Split(q, '&') == [q];
    var pairs := [Some((key, value))];
    assert PairsOf([q]) == pairs;
    assert pairs[..0] == [];
    assert Collect(pairs) == AddPair(map[], pairs[0]);
  }

  /** Two pairs joined by `&` yield both entries; the second wins if the keys
      are equal. */
  lemma TwoPairs(k1: string, v1: string, k2: string, v2: string)
    requires '&' !in k1 && '=' !in k1 && '&' !in v1 && '=' !in v1 && v1 != ""
    requires '&' !in k2 && '=' !in k2 && '&' !in v2 && '=' !in v2 && v2 != ""
    ensures QueryMap(Some(k1 + "=" + v1 + "&" + k2 + "=" + v2)) == map[k1 := v1][k2 := v2]
  {
    var p1, p2 := k1 + "=" + v1, k2 + "=" + v2;
    var q := k1 + "=" + v1 + "&" + k2 + "=" + v2;
    assert q == p1 + ['&'] + p2 + Repeat('&', 0);
    assert '&' !in p1 && '&' !in p2;
    SplitPair(p1, '&', p2, 0);
    assert p1 == k1 + "=" + v1 + Repeat('=', 0);
    PairOfShape(k1, v1, 0);
    assert p2 == k2 + "=" + v2 + Repeat('=', 0);
    PairOfShape(k2, v2, 0);
    assert q != "" && Split(q, '&') == [p1, p2];
    var pairs := [Some((k1, v1)), Some((k2, v2))];
    assert PairsOf([p1, p2]) == pairs;
    assert pairs[..1][..0] == [];
    assert Collect(pairs[..1]) == map[k1 := v1];
    assert Collect(pairs) == AddPair(Collect(pairs[..1]), pairs[1]);
  }
}
