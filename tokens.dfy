/** The token registry of libs/core: tokens keyed by id in a JavaScript `Map`,
    with the two lookups the repository defines (the library's, which answers
    `undefined` on a miss, and the test suite's, which answers `Err`). */
module Tokens {
  import opened Results

  /** A token: its id and the number of decimal places of its atomic unit. */
  datatype Token = Token(id: string, decimals: nat)

  /** Which side of a conversion drives the other: "forward" computes token B's
      amount from token A's, "backward" token A's from token B's. */
  datatype Direction = Forward | Backward

  /** The decimals `getDecimals` falls back to. */
  const DefaultDecimals: nat := 8

  /** The entries a `Map` holds after `set(t.id, t)` for each token t of ts in
      turn: every id present in ts, mapped to the last token carrying it. */
  function Registry(ts: seq<Token>): map<string, Token> {
    if ts == [] then map[]
    else Registry(ts[..|ts| - 1])[ts[|ts| - 1].id := ts[|ts| - 1]]
  }

  /** The iteration order of that `Map`: each id where it was first set; a
      later `set` of a present key keeps its place. */
  function FirstSeen(ts: seq<Token>): seq<string> {
    if ts == [] then []
    else
      var prior := FirstSeen(ts[..|ts| - 1]);
      if ts[|ts| - 1].id in prior then prior else prior + [ts[|ts| - 1].id]
  }

  /** Registering one more token of the list. */
  lemma RegistryStep(ts: seq<Token>, i: nat)
    requires i < |ts|
    ensures Registry(ts[..i + 1]) == Registry(ts[..i])[ts[i].id := ts[i]]
    ensures FirstSeen(ts[..i + 1]) ==
      if ts[i].id in FirstSeen(ts[..i]) then FirstSeen(ts[..i]) else FirstSeen(ts[..i]) + [ts[i].id]
  {
    assert ts[..i + 1][..i] == ts[..i];
  }

  /** The last token with a given id is the one the registry keeps. */
  lemma {:induction false} RegistryLast(ts: seq<Token>, j: nat)
    requires j < |ts|
    requires forall i :: j < i < |ts| ==> ts[i].id != ts[j].id
    ensures ts[j].id in Registry(ts) && Registry(ts)[ts[j].id] == ts[j]
  {
    if j < |ts| - 1 {
      RegistryLast(ts[..|ts| - 1], j);
    }
  }

  /** The registry holds exactly the ids that occur in ts. */
  lemma {:induction false} RegistryKeys(ts: seq<Token>, id: string)
    ensures id in Registry(ts) <==> exists i :: 0 <= i < |ts| && ts[i].id == id
  {
    if ts != [] {
      var prefix := ts[..|ts| - 1];
      RegistryKeys(prefix, id);
      if id in Registry(prefix) {
        var i :| 0 <= i < |prefix| && prefix[i].id == id;
        assert ts[i].id == id;
      }
      if exists i :: 0 <= i < |ts| && ts[i].id == id {
        var i :| 0 <= i < |ts| && ts[i].id == id;
        if i < |prefix| {
          assert prefix[i].id == id;
        }
      }
    }
  }

  class TokenMap {
    /** The `Map` from id to token. */
    var tokens: map<string, Token>
    /** The ids in the `Map`'s iteration order. */
    var order: seq<string>

    /** Every entry is filed under its own id, and `order` lists each key once. */
    ghost predicate Valid()
      reads this
    {
      && (forall id :: id in tokens ==> tokens[id].id == id)
      && (forall i :: 0 <= i < |order| ==> order[i] in tokens)
      && (forall id :: id in tokens ==> id in order)
      && (forall i, j :: 0 <= i < j < |order| ==> order[i] != order[j])
      && |order| == |tokens|
    }

    /** new TokenMap(tokens): adds each token in turn, so a later token with a
        repeated id replaces the earlier one. */
    constructor (ts: seq<Token>)
      ensures Valid()
      ensures tokens == Registry(ts) && order == FirstSeen(ts)
    {
      tokens, order := map[], [];
      new;
      var i := 0;
      ghost var added: seq<Token> := [];
      while i < |ts|
        invariant 0 <= i <= |ts| && added == ts[..i]
        invariant Valid()
        invariant tokens == Registry(added) && order == FirstSeen(added)
      {
        RegistryStep(ts, i);
        Add(ts[i]);
        added := ts[..i + 1];
        i := i + 1;
      }
      assert added == ts;
    }

    /** TokenMap.from(tokens) */
    static method From(ts: seq<Token>) returns (m: TokenMap)
      ensures fresh(m) && m.Valid()
      ensures m.tokens == Registry(ts) && m.order == FirstSeen(ts)
    {
      m := new TokenMap(ts);
    }

    /** add(token): files the token under its id, replacing any token already
        there; every other entry stays, and a new id goes last in the order. */
    method Add(token: Token)
      requires Valid()
      modifies this
      ensures Valid()
      ensures tokens == old(tokens)[token.id := token]
      ensures order == if token.id in old(tokens) then old(order) else old(order) + [token.id]
    {
      if token.id !in tokens {
        order := order + [token.id];
      }
      tokens := tokens[token.id := token];
    }

    /** get(id) of the library: the token filed under id, or `undefined`. */
    function Get(id: string): (r: Option<Token>)
      reads this
      ensures r.None? <==> id !in tokens
      ensures r.Some? ==> r.value == tokens[id]
      ensures Valid() && r.Some? ==> r.value.id == id
    {
      if id in tokens then Some(tokens[id]) else None
    }

    /** get(id) of the test suite: `Err("unknown_token")` on a miss. */
    function GetChecked(id: string): (r: Result<Token>)
      reads this
      ensures r.Err? <==> id !in tokens
      ensures r.Err? ==> r.error == UnknownToken
      ensures r.Ok? ==> r.value == tokens[id]
    {
      match Get(id)
      case None => Err(UnknownToken)
      case Some(t) => Ok(t)
    }

    /** all(): every registered token once, in the `Map`'s iteration order. */
    function All(): (r: seq<Token>)
      reads this
      requires Valid()
      ensures |r| == |tokens|
      ensures forall i :: 0 <= i < |r| ==> r[i].id == order[i]
      ensures forall t :: t in r <==> t in tokens.Values
    {
      var m, o := tokens, order;
      var r := seq(|o|, i requires 0 <= i < |o| && o[i] in m => m[o[i]]);
      assert forall t :: t in m.Values ==> t in r by {
        forall t | t in m.Values
          ensures t in r
        {
          var id :| id in m && m[id] == t;
          var i :| 0 <= i < |o| && o[i] == id;
          assert r[i] == t;
        }
      }
      r
    }
  }

  /** getDecimals(assets, tokenId): an unset or empty id, or an id the registry
      does not hold, falls back to 8; otherwise the token's own decimals. */
  function GetDecimals(assets: TokenMap, tokenId: Option<string>): (r: nat)
    reads assets
    ensures tokenId.Some? && tokenId.value != [] && tokenId.value in assets.tokens ==>
      r == assets.tokens[tokenId.value].decimals
    ensures !(tokenId.Some? && tokenId.value != [] && tokenId.value in assets.tokens) ==>
      r == DefaultDecimals
  {
    if tokenId.None? || tokenId.value == [] then DefaultDecimals
    else match assets.Get(tokenId.value)
      case None => DefaultDecimals
      case Some(t) => t.decimals
  }

  /** A registry built from a list answers a lookup with the last token of that
      id in the list, and falls back to 8 decimals for an id the list lacks. */
  lemma DecimalsOfList(assets: TokenMap, ts: seq<Token>, id: string)
    requires assets.tokens == Registry(ts) && id != []
    ensures (exists i :: 0 <= i < |ts| && ts[i].id == id) ==>
      exists j :: 0 <= j < |ts| && ts[j].id == id
        && (forall i :: j < i < |ts| ==> ts[i].id != id)
        && GetDecimals(assets, Some(id)) == ts[j].decimals
    ensures (forall i :: 0 <= i < |ts| ==> ts[i].id != id) ==>
      GetDecimals(assets, Some(id)) == DefaultDecimals
  {
    RegistryKeys(ts, id);
    if exists i :: 0 <= i < |ts| && ts[i].id == id {
      var j := LastIndexOf(ts, id);
      RegistryLast(ts, j);
    }
  }

  /** The index of the last token with the given id. */
  ghost function LastIndexOf(ts: seq<Token>, id: string): (j: nat)
    requires exists i :: 0 <= i < |ts| && ts[i].id == id
    ensures j < |ts| && ts[j].id == id
    ensures forall i :: j < i < |ts| ==> ts[i].id != id
  {
    if ts[|ts| - 1].id == id then |ts| - 1
    else
      var prefix := ts[..|ts| - 1];
      assert exists i :: 0 <= i < |prefix| && prefix[i].id == id by {
        var i :| 0 <= i < |ts| && ts[i].id == id;
        assert prefix[i].id == id;
      }
      LastIndexOf(prefix, id)
  }

  /** The tokens the registry test registers. */
  const TestTokens: seq<Token> := [Token("BTC", 8), Token("ETH", 8), Token("USD", 8)]

  /** The registry of the test tokens lacks "foo" and files BTC under its id. */
  lemma TestRegistry()
    ensures "foo" !in Registry(TestTokens)
    ensures "BTC" in Registry(TestTokens) && Registry(TestTokens)["BTC"] == Token("BTC", 8)
  {
    var ts := TestTokens;
    assert ts[0].id == "BTC" && ts[1].id == "ETH" && ts[2].id == "USD";
    assert "BTC"[0] != "foo"[0] && "ETH"[0] != "foo"[0] && "USD"[0] != "foo"[0];
    assert "ETH"[0] != "BTC"[0] && "USD"[0] != "BTC"[0];
    RegistryLast(ts, 0);
    RegistryKeys(ts, "foo");
  }

  /** The registry test: an unknown id is an error, a known one its token. */
  method TokenMapTest() returns (bad: Result<Token>, good: Result<Token>)
    ensures bad == Err(UnknownToken)
    ensures good == Ok(Token("BTC", 8))
  {
    var assets := new TokenMap(TestTokens);
    TestRegistry();
    bad := assets.GetChecked("foo");
    good := assets.GetChecked("BTC");
  }
}
