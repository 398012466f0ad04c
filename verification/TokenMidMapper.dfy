/**
 The proxy's mapping of tokens and message numbers: requests go out under a drawn
 token and the next number, and replies are restored to what the client used.
 */
module TokenMidMapper {
  import opened Bytes

  const MAX_ID: nat := 16777215
  const TOKENS: nat := 0x1_0000

  /** Two bytes. */
  type ProxyToken = t: int | 0 <= t < TOKENS

  type Token = seq<Byte>

  /** `requests` records, in order, the requests mapped so far. */
  datatype Mapped = Mapped(token: Token, mid: nat, source: nat, proxyToken: ProxyToken, proxyMid: nat)

  datatype State = State(
    nextMid: nat, reverseTokens: map<ProxyToken, Token>, reverseMids: map<nat, nat>,
    pending: map<ProxyToken, nat>, requests: seq<Mapped>)

  datatype Reply = Reply(token: Token, mid: nat, source: Option<nat>)

  function Start(firstMid: nat): State {
    State(firstMid, map[], map[], map[], [])
  }

  function Following(mid: nat): nat {
    mid % MAX_ID + 1
  }

  function MapRequest(s: State, token: Token, mid: nat, source: nat, drawn: ProxyToken): State {
    State(Following(s.nextMid), s.reverseTokens[drawn := token], s.reverseMids[s.nextMid := mid],
          s.pending[drawn := source], s.requests + [Mapped(token, mid, source, drawn, s.nextMid)])
  }

  /** A reply under an unknown token is discarded; an unknown number is left as it is. */
  function MapResponse(s: State, proxyToken: ProxyToken, proxyMid: nat): Option<Reply> {
    if proxyToken !in s.reverseTokens then None
    else
      Some(Reply(s.reverseTokens[proxyToken],
                 if proxyMid in s.reverseMids then s.reverseMids[proxyMid] else proxyMid,
                 if proxyToken in s.pending then Some(s.pending[proxyToken]) else None))
  }

  datatype Request = Request(token: Token, mid: nat, source: nat, drawn: ProxyToken)

  function Run(firstMid: nat, requests: seq<Request>): State {
    if requests == [] then Start(firstMid)
    else
      var r := requests[|requests| - 1];
      MapRequest(Run(firstMid, requests[..|requests| - 1]), r.token, r.mid, r.source, r.drawn)
  }

  /** The token generator never gives a token in use; tokens are never released. */
  predicate FreshTokens(requests: seq<Request>) {
    forall i, j :: 0 <= i < j < |requests| ==> requests[i].drawn != requests[j].drawn
  }

  // ---- Message numbers ----

  /** The number after `n` steps from `first`. */
  function Nth(first: nat, n: nat): nat
    requires first >= 1
  {
    (first - 1 + n) % MAX_ID + 1
  }

  lemma NextIsNth(first: nat, n: nat)
    requires first >= 1
    ensures Following(Nth(first, n)) == Nth(first, n + 1)
  {
    var a := first - 1 + n;
    assert a == MAX_ID * (a / MAX_ID) + a % MAX_ID;
    if a % MAX_ID + 1 < MAX_ID {
      Remainder(a + 1, a / MAX_ID, a % MAX_ID + 1);
    } else {
      Remainder(a + 1, a / MAX_ID + 1, 0);
    }
  }

  lemma Remainder(n: nat, q: nat, r: nat)
    requires n == MAX_ID * q + r && r < MAX_ID
    ensures n % MAX_ID == r
  {
  }

  /** Within one cycle no number comes twice. */
  lemma NthDistinct(first: nat, i: nat, j: nat)
    requires first >= 1 && i < j < i + MAX_ID
    ensures Nth(first, i) != Nth(first, j)
  {
    var a, b := first - 1 + i, first - 1 + j;
    assert a == MAX_ID * (a / MAX_ID) + a % MAX_ID;
    assert b == MAX_ID * (b / MAX_ID) + b % MAX_ID;
  }

  // ---- Tokens ----

  function Below(n: nat): (s: set<int>)
    ensures |s| == n && forall t: int :: t in s <==> 0 <= t < n
  {
    if n == 0 then {}
    else
      var fewer := Below(n - 1);
      assert |fewer + {n - 1}| == |fewer| + 1;
      fewer + {n - 1}
  }

  function TokensOf(requests: seq<Request>): set<int> {
    if requests == [] then {} else TokensOf(requests[..|requests| - 1]) + {requests[|requests| - 1].drawn}
  }

  lemma {:induction false} TokenIsOf(requests: seq<Request>, t: int)
    requires t in TokensOf(requests)
    ensures 0 <= t < TOKENS && exists i :: 0 <= i < |requests| && requests[i].drawn == t
  {
    var n := |requests| - 1;
    if t in TokensOf(requests[..n]) {
      TokenIsOf(requests[..n], t);
      var i :| 0 <= i < n && requests[..n][i].drawn == t;
      assert requests[i].drawn == t;
    } else {
      assert requests[n].drawn == t;
    }
  }

  lemma {:induction false} TokenCount(requests: seq<Request>)
    requires FreshTokens(requests)
    ensures |TokensOf(requests)| == |requests|
  {
    if requests != [] {
      var n := |requests| - 1;
      TokenCount(requests[..n]);
      var t: int := requests[n].drawn;
      if t in TokensOf(requests[..n]) {
        TokenIsOf(requests[..n], t);
      }
      assert t !in TokensOf(requests[..n]);
      assert |TokensOf(requests[..n]) + {t}| == |TokensOf(requests[..n])| + 1;
    }
  }

  /** There are no more requests than tokens, so the numbers do not wrap around. */
  lemma RequestsAreFewer(requests: seq<Request>)
    requires FreshTokens(requests)
    ensures |requests| <= TOKENS < MAX_ID
  {
    TokenCount(requests);
    forall t | t in TokensOf(requests) ensures t in Below(TOKENS) {
      TokenIsOf(requests, t);
    }
    SubsetSize(TokensOf(requests), Below(TOKENS));
  }

  lemma {:induction false} TokensAreKeys(firstMid: nat, requests: seq<Request>)
    ensures forall t: ProxyToken :: t in Run(firstMid, requests).reverseTokens <==> t as int in TokensOf(requests)
  {
    if requests != [] {
      TokensAreKeys(firstMid, requests[..|requests| - 1]);
    }
  }

  /** A further request can get a token exactly as long as there were fewer requests than tokens. */
  lemma TokenIsLeftExactly(firstMid: nat, requests: seq<Request>)
    requires FreshTokens(requests)
    ensures (exists t: ProxyToken :: t !in Run(firstMid, requests).reverseTokens) <==> |requests| < TOKENS
  {
    hide Run, TokensOf, Below;
    TokensAreKeys(firstMid, requests);
    TokenCount(requests);
    var used, all := TokensOf(requests), Below(TOKENS);
    forall t | t in used ensures t in all {
      TokenIsOf(requests, t);
    }
    if t: ProxyToken :| t !in Run(firstMid, requests).reverseTokens {
      LessWithout(used, all, t as int);
    }
    if |requests| < TOKENS {
      var t := OneOutside(used, all);
      var token: ProxyToken := t;
      assert token !in Run(firstMid, requests).reverseTokens;
    }
  }

  lemma LessWithout(a: set<int>, b: set<int>, t: int)
    requires a <= b && t in b && t !in a
    ensures |a| < |b|
  {
    SubsetSize(a, b - {t});
    assert |b - {t}| == |b| - 1;
  }

  lemma OneOutside(a: set<int>, b: set<int>) returns (t: int)
    requires |a| < |b|
    ensures t in b && t !in a
  {
    if !exists x :: x in b && x !in a {
      SubsetSize(b, a);
    }
    t :| t in b && t !in a;
  }

  // ---- Transparency ----

  /** What the dictionaries hold for the `i`th request. */
  predicate Remembers(s: State, r: Request, proxyMid: nat) {
    && r.drawn in s.reverseTokens && s.reverseTokens[r.drawn] == r.token
    && r.drawn in s.pending && s.pending[r.drawn] == r.source
    && proxyMid in s.reverseMids && s.reverseMids[proxyMid] == r.mid
  }

  predicate Recorded(m: Mapped, r: Request, proxyMid: nat) {
    m == Mapped(r.token, r.mid, r.source, r.drawn, proxyMid)
  }

  lemma {:induction false} RunRemembers(firstMid: nat, requests: seq<Request>)
    requires FreshTokens(requests) && 1 <= firstMid <= MAX_ID
    ensures var s := Run(firstMid, requests);
      && s.nextMid == Nth(firstMid, |requests|)
      && |s.requests| == |requests|
      && (forall i :: 0 <= i < |requests| ==> Remembers(s, requests[i], Nth(firstMid, i)))
      && (forall i :: 0 <= i < |requests| ==> Recorded(s.requests[i], requests[i], Nth(firstMid, i)))
  {
    if requests != [] {
      hide Nth, Following;
      var n := |requests| - 1;
      RunRemembers(firstMid, requests[..n]);
      RequestsAreFewer(requests);
      NextIsNth(firstMid, n);
      var before, s := Run(firstMid, requests[..n]), Run(firstMid, requests);
      forall i | 0 <= i < |requests| ensures Remembers(s, requests[i], Nth(firstMid, i)) {
        if i < n {
          assert requests[..n][i] == requests[i];
          assert Remembers(before, requests[i], Nth(firstMid, i));
          NthDistinct(firstMid, i, n);
        }
      }
    } else {
      FirstNumber(firstMid);
    }
  }

  lemma FirstNumber(first: nat)
    requires 1 <= first <= MAX_ID
    ensures Nth(first, 0) == first
  {
  }

  /**
   In every run a reply under the token and number of a request's mapping is restored to
   that request's own token, number and source, however many requests came later.
   */
  lemma RepliesAreRestored(firstMid: nat, requests: seq<Request>, i: nat)
    requires FreshTokens(requests) && 1 <= firstMid <= MAX_ID && i < |requests|
    ensures var s := Run(firstMid, requests); var r := requests[i];
      && i < |s.requests| && s.requests[i].proxyToken == r.drawn
      && MapResponse(s, r.drawn, s.requests[i].proxyMid) == Some(Reply(r.token, r.mid, Some(r.source)))
  {
    RunRemembers(firstMid, requests);
    assert Remembers(Run(firstMid, requests), requests[i], Nth(firstMid, i));
  }

  /** No two requests travel under the same number, or under the same token. */
  lemma MappingsAreDistinct(firstMid: nat, requests: seq<Request>, i: nat, j: nat)
    requires FreshTokens(requests) && 1 <= firstMid <= MAX_ID && i < j < |requests|
    ensures var m := Run(firstMid, requests).requests;
      |m| == |requests| && m[i].proxyMid != m[j].proxyMid && m[i].proxyToken != m[j].proxyToken
  {
    RunRemembers(firstMid, requests);
    RequestsAreFewer(requests);
    NthDistinct(firstMid, i, j);
  }

  lemma {:induction false} NumbersAreKeys(firstMid: nat, requests: seq<Request>, mid: nat)
    requires FreshTokens(requests) && 1 <= firstMid <= MAX_ID
    ensures mid in Run(firstMid, requests).reverseMids <==> exists j :: 0 <= j < |requests| && Nth(firstMid, j) == mid
  {
    if requests != [] {
      hide Nth, Following;
      var n := |requests| - 1;
      NumbersAreKeys(firstMid, requests[..n], mid);
      RunRemembers(firstMid, requests[..n]);
      if j :| 0 <= j < |requests| && Nth(firstMid, j) == mid {
        assert j == n || (j < n && Nth(firstMid, j) == mid);
      }
    }
  }

  /** The numbers go around from the first one. */
  lemma NumbersExactly(firstMid: nat, requests: seq<Request>, i: nat)
    requires FreshTokens(requests) && 1 <= firstMid <= 16777215 && i < |requests|
    ensures i < |Run(firstMid, requests).requests|
    ensures Run(firstMid, requests).requests[i].proxyMid == (firstMid - 1 + i) % 16777215 + 1 == Nth(firstMid, i)
  {
    RunRemembers(firstMid, requests);
  }

  /** In every run a reply is discarded exactly if its token was drawn for no request. */
  lemma DiscardedExactly(firstMid: nat, requests: seq<Request>, t: ProxyToken, mid: nat)
    requires FreshTokens(requests) && 1 <= firstMid <= MAX_ID
    ensures MapResponse(Run(firstMid, requests), t, mid).None? <==>
      forall i :: 0 <= i < |requests| ==> requests[i].drawn != t
  {
    hide Run, Nth;
    TokensAreKeys(firstMid, requests);
    RunRemembers(firstMid, requests);
    if t in Run(firstMid, requests).reverseTokens {
      TokenIsOf(requests, t);
    }
    forall i | 0 <= i < |requests| && requests[i].drawn == t ensures t in Run(firstMid, requests).reverseTokens {
      assert Remembers(Run(firstMid, requests), requests[i], Nth(firstMid, i));
    }
  }

  /**
   In every run a reply with the token of one request and any number gets token and source of
   that request, and the number of the request that went out under that number, or else keeps it.
   */
  lemma RestoredExactly(firstMid: nat, requests: seq<Request>, i: nat, mid: nat)
    requires FreshTokens(requests) && 1 <= firstMid <= MAX_ID && i < |requests|
    ensures var reply := MapResponse(Run(firstMid, requests), requests[i].drawn, mid);
      && reply.Some? && reply.value.token == requests[i].token && reply.value.source == Some(requests[i].source)
      && (forall j :: 0 <= j < |requests| && Nth(firstMid, j) == mid ==> reply.value.mid == requests[j].mid)
      && ((forall j :: 0 <= j < |requests| ==> Nth(firstMid, j) != mid) ==> reply.value.mid == mid)
  {
    hide Run, Nth;
    var s := Run(firstMid, requests);
    RunRemembers(firstMid, requests);
    NumbersAreKeys(firstMid, requests, mid);
    assert Remembers(s, requests[i], Nth(firstMid, i));
    forall j | 0 <= j < |requests| && Nth(firstMid, j) == mid ensures mid in s.reverseMids
      ensures s.reverseMids[mid] == requests[j].mid
    {
      assert Remembers(s, requests[j], Nth(firstMid, j));
    }
  }

  // ---- The code ----

  class Mapper {
    var nextMid: nat
    var reverseTokens: map<ProxyToken, Token>
    var reverseMids: map<nat, nat>
    var pending: map<ProxyToken, nat>
    ghost var requests: seq<Mapped>

    constructor (firstMid: nat)
      ensures Now() == Start(firstMid)
    {
      nextMid, reverseTokens, reverseMids, pending, requests := firstMid, map[], map[], map[], [];
    }

    ghost function Now(): State
      reads this
    {
      State(nextMid, reverseTokens, reverseMids, pending, requests)
    }

    method GenerateMid() returns (mid: nat)
      modifies this`nextMid
      ensures mid == old(nextMid) && nextMid == Following(mid)
    {
      mid := nextMid;
      nextMid := nextMid % MAX_ID + 1;
    }

    /** The first draw that is not in use; as long as there is none, the loop goes on. */
    method GenerateToken(draws: seq<ProxyToken>) returns (token: Option<ProxyToken>)
      ensures token.None? <==> forall t :: t in draws ==> t in reverseTokens
      ensures token.Some? ==> token.value !in reverseTokens
      ensures token.Some? ==>
        exists i :: 0 <= i < |draws| && draws[i] == token.value && forall j :: 0 <= j < i ==> draws[j] in reverseTokens
    {
      for i := 0 to |draws|
        invariant forall j :: 0 <= j < i ==> draws[j] in reverseTokens
      {
        if draws[i] !in reverseTokens {
          return Some(draws[i]);
        }
      }
      return None;
    }

    /** A request for which no token was drawn yet leaves the mapper alone. */
    method SendRequest(token: Token, mid: nat, source: nat, draws: seq<ProxyToken>)
        returns (proxyToken: Option<ProxyToken>, proxyMid: nat)
      modifies this
      ensures proxyToken.None? <==> forall t :: t in draws ==> t in old(reverseTokens)
      ensures proxyToken.None? ==> Now() == old(Now())
      ensures proxyToken.Some? ==> proxyToken.value !in old(reverseTokens) && proxyMid == old(nextMid)
      ensures proxyToken.Some? ==> Now() == MapRequest(old(Now()), token, mid, source, proxyToken.value)
    {
      proxyMid := nextMid;
      proxyToken := GenerateToken(draws);
      if proxyToken.None? {
        return;
      }
      var drawn := proxyToken.value;
      proxyMid := GenerateMid();
      reverseTokens := reverseTokens[drawn := token];
      reverseMids := reverseMids[proxyMid := mid];
      pending := pending[drawn := source];
      requests := requests + [Mapped(token, mid, source, drawn, proxyMid)];
    }

    method RestoreReply(proxyToken: ProxyToken, proxyMid: nat) returns (reply: Option<Reply>)
      ensures reply == MapResponse(Now(), proxyToken, proxyMid)
    {
      if proxyToken !in reverseTokens {
        return None;
      }
      var source := if proxyToken in pending then Some(pending[proxyToken]) else None;
      var mid := proxyMid;
      if proxyMid in reverseMids {
        mid := reverseMids[proxyMid];
      }
      return Some(Reply(reverseTokens[proxyToken], mid, source));
    }
  }
}
