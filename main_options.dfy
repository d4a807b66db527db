/** The type-checked option filling of the package entry point: a supplied
    value is kept only when `typeof` agrees with the default's. */
module MainOptions {
  import opened Js

  /** The keys of the defaults table, in the order `Object.keys` lists them. */
  const DefaultKeys: seq<string> := ["lookupdHost", "lookupdPort", "nsqdHost", "nsqdPort"]

  /** The defaults table. */
  const Defaults: Dict := map[
    "lookupdHost" := Str("127.0.0.1"),
    "lookupdPort" := Num(4161),
    "nsqdHost" := Str("127.0.0.1"),
    "nsqdPort" := Num(4150)]

  /** The supplied value for k has the same `typeof` as the default. */
  predicate TypeMatches(o: Dict, k: string)
    requires k in Defaults
  {
    TypeOf(Get(o, k)) == TypeOf(Defaults[k])
  }

  /** The record filling produces: every default key, holding the supplied
      value when its type matches the default's and the default otherwise. */
  function Filled(o: Dict): Dict {
    map k | k in Defaults :: if TypeMatches(o, k) then Get(o, k) else Defaults[k]
  }

  /** fillNsqOptions: builds the record key by key under the typeof guard. */
  method FillNsqOptions(options: Dict) returns (result: Dict)
    ensures result == Filled(options)
  {
    result := map[];
    for i := 0 to |DefaultKeys|
      invariant forall k :: k in result <==> k in DefaultKeys[..i]
      invariant forall k :: k in result ==> k in Defaults && result[k] == Filled(options)[k]
    {
      var k := DefaultKeys[i];
      if TypeOf(Get(options, k)) == TypeOf(Defaults[k]) {
        result := result[k := Get(options, k)];
      } else {
        result := result[k := Defaults[k]];
      }
    }
    assert DefaultKeys[..|DefaultKeys|] == DefaultKeys;
  }

  /** The result holds exactly the four default keys, whatever was supplied. */
  lemma FilledKeys(o: Dict)
    ensures Filled(o).Keys == {"lookupdHost", "lookupdPort", "nsqdHost", "nsqdPort"}
  {
  }

  /** A supplied value is kept exactly when its type matches the default's;
      otherwise (missing, or of another type) the default takes its place.
      Either way the result has the default's type. */
  lemma FilledKeepsExactlyMatching(o: Dict, k: string)
    requires k in Defaults
    ensures k in Filled(o)
    ensures Filled(o)[k] == Get(o, k) <==> TypeMatches(o, k)
    ensures !TypeMatches(o, k) ==> Filled(o)[k] == Defaults[k]
    ensures TypeOf(Filled(o)[k]) == TypeOf(Defaults[k])
  {
  }

  /** Filling an already filled record changes nothing. */
  lemma FilledIdempotent(o: Dict)
    ensures Filled(Filled(o)) == Filled(o)
  {
    var f := Filled(o);
    forall k | k in Defaults ensures TypeMatches(f, k) {
      FilledKeepsExactlyMatching(o, k);
    }
  }
}
