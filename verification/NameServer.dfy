/** The registry of the name server, its sessions and its clients (Sylar/NodeService). */
module NameServer {
  import opened Prelude

  type Domain = string
  type Cmd = nat
  type Stream = nat

  /** A node; its id is made of its address and port, and is not valid without an address. */
  datatype Node = Node(id: nat, weight: nat)

  predicate ValidId(n: Node) {
    n.id / TWO_32 != 0
  }

  /** What a session offers: commands of domains. */
  type Claims = map<Domain, set<Cmd>>

  predicate Has(m: Claims, d: Domain, c: Cmd) {
    d in m && c in m[d]
  }

  function WithClaim(m: Claims, d: Domain, c: Cmd): (r: Claims)
    ensures forall d', c' :: Has(r, d', c') <==> Has(m, d', c') || (d' == d && c' == c)
  {
    m[d := (if d in m then m[d] else {}) + {c}]
  }

  function WithDomain(m: Claims, d: Domain, cs: set<Cmd>): (r: Claims)
    ensures forall d', c :: Has(r, d', c) <==> if d' == d then c in cs else Has(m, d', c)
  {
    m[d := cs]
  }

  /** Which nodes serve a command of a domain. */
  type NodeSet = map<nat, Node>
  type Commands = map<Cmd, NodeSet>
  type Registry = map<Domain, Commands>

  predicate In(r: Registry, d: Domain, c: Cmd, n: Node) {
    d in r && c in r[d] && n.id in r[d][c] && r[d][c][n.id] == n
  }

  /** Node sets are keyed by id, and none of them is empty. */
  ghost predicate Tidy(r: Registry) {
    forall d, c :: d in r && c in r[d] ==> r[d][c] != map[] && forall id :: id in r[d][c] ==> r[d][c][id].id == id
  }

  // ---------------------------------------------------------------- the registry

  /** `NSDomain::add` in a domain that is made if need be. */
  function Added(r: Registry, d: Domain, c: Cmd, n: Node): Registry {
    var cmds: Commands := if d in r then r[d] else map[];
    var nodes: NodeSet := if c in cmds then cmds[c] else map[];
    r[d := cmds[c := nodes[n.id := n]]]
  }

  lemma AddedHas(r: Registry, d: Domain, c: Cmd, n: Node)
    requires Tidy(r)
    ensures Tidy(Added(r, d, c, n))
    ensures forall d', c', m :: In(Added(r, d, c, n), d', c', m) <==>
      if d' == d && c' == c && m.id == n.id then m == n else In(r, d', c', m)
  {
    assert n.id in Added(r, d, c, n)[d][c];
  }

  /** `NSDomain::del`: a command without nodes goes, a domain without commands stays. */
  function Removed(r: Registry, d: Domain, c: Cmd, id: nat): Registry {
    if d !in r || c !in r[d] then r
    else
      var nodes: NodeSet := r[d][c] - {id};
      var cmds: Commands := if |nodes| == 0 then r[d] - {c} else r[d][c := nodes];
      r[d := cmds]
  }

  lemma RemovedHas(r: Registry, d: Domain, c: Cmd, id: nat)
    requires Tidy(r)
    ensures Tidy(Removed(r, d, c, id))
    ensures forall d', c', m :: In(Removed(r, d, c, id), d', c', m) <==>
      In(r, d', c', m) && !(d' == d && c' == c && m.id == id)
  {
    RemovedIsTidy(r, d, c, id);
    forall d', c', m
      ensures In(Removed(r, d, c, id), d', c', m) <==> In(r, d', c', m) && !(d' == d && c' == c && m.id == id)
    {
      RemovedIs(r, d, c, id, d', c');
    }
  }

  lemma RemovedIsTidy(r: Registry, d: Domain, c: Cmd, id: nat)
    requires Tidy(r)
    ensures Tidy(Removed(r, d, c, id))
  {
  }

  /** The nodes of a command. */
  function Nodes(r: Registry, d: Domain, c: Cmd): NodeSet {
    if d in r && c in r[d] then r[d][c] else map[]
  }

  lemma RemovedIs(r: Registry, d: Domain, c: Cmd, id: nat, d': Domain, c': Cmd)
    ensures Nodes(Removed(r, d, c, id), d', c') ==
      if d' == d && c' == c then Nodes(r, d, c) - {id} else Nodes(r, d', c')
  {
  }

  // ---------------------------------------------------------------- diff

  /** `diff`: what is only in the old claims, only in the new ones, and in both. */
  method Diff(was: Claims, now: Claims) returns (dels: Claims, news: Claims, comms: Claims)
    ensures forall d, c :: Has(dels, d, c) <==> Has(was, d, c) && !Has(now, d, c)
    ensures forall d, c :: Has(news, d, c) <==> Has(now, d, c) && !Has(was, d, c)
    ensures forall d, c :: Has(comms, d, c) <==> Has(was, d, c) && Has(now, d, c)
  {
    dels, comms := Split(was, now);
    var both;
    news, both := Split(now, was);
  }

  /** The loop over the one side: what the other side lacks, and what it has. */
  method Split(a: Claims, b: Claims) returns (lacks: Claims, shares: Claims)
    ensures forall d, c :: Has(lacks, d, c) <==> Has(a, d, c) && !Has(b, d, c)
    ensures forall d, c :: Has(shares, d, c) <==> Has(a, d, c) && Has(b, d, c)
  {
    lacks, shares := map[], map[];
    var todo := a.Keys;
    while todo != {}
      invariant todo <= a.Keys
      invariant forall d, c :: Has(lacks, d, c) <==> d !in todo && Has(a, d, c) && !Has(b, d, c)
      invariant forall d, c :: Has(shares, d, c) <==> d !in todo && Has(a, d, c) && Has(b, d, c)
      decreases |todo|
    {
      var d :| d in todo;
      if d !in b {
        lacks := WithDomain(lacks, d, a[d]);
      } else {
        lacks, shares := SplitDomain(a, b, d, lacks, shares);
      }
      todo := todo - {d};
    }
  }

  method SplitDomain(a: Claims, b: Claims, d: Domain, given: Claims, given': Claims)
    returns (lacks: Claims, shares: Claims)
    requires d in a && d in b && (forall c :: !Has(given, d, c) && !Has(given', d, c))
    ensures forall d', c :: Has(lacks, d', c) <==> if d' == d then c in a[d] && c !in b[d] else Has(given, d', c)
    ensures forall d', c :: Has(shares, d', c) <==> if d' == d then c in a[d] && c in b[d] else Has(given', d', c)
  {
    lacks, shares := given, given';
    var todo := a[d];
    while todo != {}
      invariant todo <= a[d]
      invariant forall d', c :: Has(lacks, d', c) <==>
        if d' == d then c in a[d] && c !in todo && c !in b[d] else Has(given, d', c)
      invariant forall d', c :: Has(shares, d', c) <==>
        if d' == d then c in a[d] && c !in todo && c in b[d] else Has(given', d', c)
      decreases |todo|
    {
      var c :| c in todo;
      if c !in b[d] {
        lacks := WithClaim(lacks, d, c);
      } else {
        shares := WithClaim(shares, d, c);
      }
      todo := todo - {c};
    }
  }

  // ---------------------------------------------------------------- sessions

  datatype Session = Session(node: Node, claims: Claims)

  type Sessions = map<Stream, Session>

  /** A live session offers the command of the domain on the node. */
  ghost predicate Offered(ss: Sessions, d: Domain, c: Cmd, n: Node) {
    exists s :: s in ss && Offers(ss[s], d, c, n)
  }

  predicate Offers(s: Session, d: Domain, c: Cmd, n: Node) {
    s.node == n && Has(s.claims, d, c)
  }

  /** The registry holds what the live sessions offer, and nothing else. */
  ghost predicate Mirrors(r: Registry, ss: Sessions) {
    Tidy(r) && forall d, c, n :: In(r, d, c, n) <==> Offered(ss, d, c, n)
  }

  function Updated(ss: Sessions, s: Stream, now: Option<Session>): Sessions {
    if now.Some? then ss[s := now.value] else ss - {s}
  }

  function Lookup(ss: Sessions, s: Stream): Option<Session> {
    if s in ss then Some(ss[s]) else None
  }

  predicate Claimed(s: Option<Session>, d: Domain, c: Cmd) {
    s.Some? && Has(s.value.claims, d, c)
  }

  /** What `set` leaves of the registry when a session is replaced: on the session's node the
      new claims stand with the new node, those given up are gone, and all else is as it was. */
  ghost predicate Replaced(r: Registry, r': Registry, was: Option<Session>, now: Option<Session>) {
    forall d, c, n :: In(r', d, c, n) <==>
      if Claimed(now, d, c) && n.id == now.value.node.id && (!Claimed(was, d, c) || was.value.node != now.value.node)
      then n == now.value.node
      else In(r, d, c, n) && !(Claimed(was, d, c) && !Claimed(now, d, c) && n.id == was.value.node.id)
  }

  /** What the other sessions on the node of `s` claim, `s` does not give up, and if `s` claims
      it too it does so with the same weight. */
  ghost predicate Fits(ss: Sessions, s: Stream, now: Option<Session>) {
    forall t, d, c :: t in ss && t != s && Has(ss[t].claims, d, c) ==> FitsWith(ss[t].node, Lookup(ss, s), now, d, c)
  }

  predicate FitsWith(other: Node, was: Option<Session>, now: Option<Session>, d: Domain, c: Cmd) {
    if Claimed(now, d, c) then other.id == now.value.node.id ==> other == now.value.node
    else Claimed(was, d, c) ==> other.id != was.value.node.id
  }

  /** A session keeps its node, if not its weight. */
  predicate SameNode(was: Option<Session>, now: Option<Session>) {
    was.Some? && now.Some? ==> was.value.node.id == now.value.node.id
  }

  /** A session's own offer is in the registry. */
  lemma OwnOffer(r: Registry, ss: Sessions, t: Stream, d: Domain, c: Cmd)
    requires Mirrors(r, ss) && t in ss && Has(ss[t].claims, d, c)
    ensures In(r, d, c, ss[t].node)
  {
    assert Offers(ss[t], d, c, ss[t].node);
  }

  lemma StillOffered(ss: Sessions, s: Stream, now: Option<Session>, t: Stream, d: Domain, c: Cmd)
    requires t in ss && t != s && Has(ss[t].claims, d, c)
    ensures Offered(Updated(ss, s, now), d, c, ss[t].node)
  {
    var ss' := Updated(ss, s, now);
    assert t in ss' && Offers(ss'[t], d, c, ss[t].node);
  }

  /** If the registry mirrors the sessions afterwards, nothing of the others was lost. */
  lemma MirrorFits(r: Registry, r': Registry, ss: Sessions, s: Stream, now: Option<Session>)
    requires Mirrors(r, ss) && Replaced(r, r', Lookup(ss, s), now) && Mirrors(r', Updated(ss, s, now))
    ensures Fits(ss, s, now)
  {
    var was := Lookup(ss, s);
    forall t, d, c | t in ss && t != s && Has(ss[t].claims, d, c)
      ensures FitsWith(ss[t].node, was, now, d, c)
    {
      StillOffered(ss, s, now, t, d, c);
      assert In(r', d, c, ss[t].node);
      OwnOffer(r, ss, t, d, c);
      if Claimed(was, d, c) {
        OwnOffer(r, ss, s, d, c);
      }
    }
  }

  lemma FitsMirror(r: Registry, r': Registry, ss: Sessions, s: Stream, now: Option<Session>, d: Domain, c: Cmd, n: Node)
    requires Mirrors(r, ss) && Replaced(r, r', Lookup(ss, s), now) && SameNode(Lookup(ss, s), now) && Fits(ss, s, now)
    ensures In(r', d, c, n) <==> Offered(Updated(ss, s, now), d, c, n)
  {
    var was, ss' := Lookup(ss, s), Updated(ss, s, now);
    if Claimed(was, d, c) {
      OwnOffer(r, ss, s, d, c);
    }
    if In(r', d, c, n) {
      if Claimed(now, d, c) && n == now.value.node {
        assert s in ss' && Offers(ss'[s], d, c, n);
      } else {
        assert In(r, d, c, n);
        var t :| t in ss && Offers(ss[t], d, c, n);
        assert t != s;
        StillOffered(ss, s, now, t, d, c);
      }
    }
    if Offered(ss', d, c, n) {
      var t :| t in ss' && Offers(ss'[t], d, c, n);
      if t != s {
        assert FitsWith(ss[t].node, was, now, d, c);
        OwnOffer(r, ss, t, d, c);
      }
    }
  }

  /** When a session of a mirrored registry is replaced, or goes, the registry mirrors the
      sessions again if and only if what is replaced fits what the others on its node offer. */
  lemma ReplacedMirrorsExactly(r: Registry, r': Registry, ss: Sessions, s: Stream, now: Option<Session>)
    requires Mirrors(r, ss) && Tidy(r') && Replaced(r, r', Lookup(ss, s), now) && SameNode(Lookup(ss, s), now)
    ensures Mirrors(r', Updated(ss, s, now)) <==> Fits(ss, s, now)
  {
    if Mirrors(r', Updated(ss, s, now)) {
      MirrorFits(r, r', ss, s, now);
    }
    if Fits(ss, s, now) {
      forall d, c, n
        ensures In(r', d, c, n) <==> Offered(Updated(ss, s, now), d, c, n)
      {
        FitsMirror(r, r', ss, s, now, d, c, n);
      }
    }
  }

  /** The node belongs to no other session. */
  ghost predicate HasOwnNode(ss: Sessions, s: Stream, id: nat) {
    forall t :: t in ss && t != s ==> ss[t].node.id != id
  }

  /** Distinct sessions are on distinct nodes. */
  ghost predicate Apart(ss: Sessions) {
    forall s :: s in ss ==> HasOwnNode(ss, s, ss[s].node.id)
  }

  /** Sessions on nodes of their own always fit, and stay on nodes of their own. */
  lemma ApartFits(ss: Sessions, s: Stream, now: Option<Session>)
    requires Apart(ss) && SameNode(Lookup(ss, s), now)
    requires now.Some? ==> HasOwnNode(ss, s, now.value.node.id)
    ensures Fits(ss, s, now) && Apart(Updated(ss, s, now))
  {
    var ss' := Updated(ss, s, now);
    if s in ss {
      assert HasOwnNode(ss, s, ss[s].node.id);
    }
    forall x, y | x in ss' && y in ss' && x != y
      ensures ss'[x].node.id != ss'[y].node.id
    {
      if x != s && y != s {
        assert HasOwnNode(ss, x, ss[x].node.id);
      }
    }
  }

  /** Two sessions on one node that offer the same: when the one goes, what the other offers is
      no longer in the registry. */
  lemma DisconnectTakesAlong(s: Stream, t: Stream, node: Node, d: Domain, c: Cmd)
    requires s != t
    ensures var one := Session(node, map[d := {c}]);
      var r, ss := Added(map[], d, c, node), map[s := one, t := one];
      && Mirrors(r, ss) && !Fits(ss, s, None)
      && Replaced(r, Removed(r, d, c, node.id), Some(one), None)
      && Offered(ss - {s}, d, c, node) && !In(Removed(r, d, c, node.id), d, c, node)
  {
    var one := Session(node, map[d := {c}]);
    var r, ss := Added(map[], d, c, node), map[s := one, t := one];
    AddedHas(map[], d, c, node);
    RemovedHas(r, d, c, node.id);
    assert s in ss && Offers(ss[s], d, c, node);
    assert t in ss - {s} && Offers((ss - {s})[t], d, c, node);
    assert Has(ss[t].claims, d, c) && !FitsWith(ss[t].node, Lookup(ss, s), None, d, c);
  }

  // ---------------------------------------------------------------- the server

  /** What is left when a node is taken out of the given claims. */
  ghost predicate DelRelation(r: Registry, r': Registry, cl: Claims, id: nat) {
    forall d, c, n :: In(r', d, c, n) <==> In(r, d, c, n) && !(Has(cl, d, c) && n.id == id)
  }

  /** What there is when a node has been put under the given claims. */
  ghost predicate AddRelation(r: Registry, r': Registry, cl: Claims, node: Node) {
    forall d, c, n :: In(r', d, c, n) <==> if Has(cl, d, c) && n.id == node.id then n == node else In(r, d, c, n)
  }

  method DelAll(r: Registry, cl: Claims, id: nat) returns (r': Registry)
    requires Tidy(r)
    ensures Tidy(r') && DelRelation(r, r', cl, id)
  {
    r' := r;
    var todo, done := cl.Keys, map[];
    while todo != {}
      invariant todo <= cl.Keys && Tidy(r') && DelRelation(r, r', done, id)
      invariant forall d, c :: Has(done, d, c) <==> d !in todo && Has(cl, d, c)
      decreases |todo|
    {
      var d :| d in todo;
      var cs := cl[d];
      while cs != {}
        invariant cs <= cl[d] && Tidy(r') && DelRelation(r, r', done, id)
        invariant forall d', c :: Has(done, d', c) <==> (if d' == d then c !in cs else d' !in todo) && Has(cl, d', c)
        decreases |cs|
      {
        var c :| c in cs;
        RemovedHas(r', d, c, id);
        r' := Removed(r', d, c, id);
        done := WithClaim(done, d, c);
        cs := cs - {c};
      }
      todo := todo - {d};
    }
    assert forall d, c :: Has(done, d, c) <==> Has(cl, d, c);
  }

  method AddAll(r: Registry, cl: Claims, node: Node) returns (r': Registry)
    requires Tidy(r)
    ensures Tidy(r') && AddRelation(r, r', cl, node)
  {
    r' := r;
    var todo, done := cl.Keys, map[];
    while todo != {}
      invariant todo <= cl.Keys && Tidy(r') && AddRelation(r, r', done, node)
      invariant forall d, c :: Has(done, d, c) <==> d !in todo && Has(cl, d, c)
      decreases |todo|
    {
      var d :| d in todo;
      var cs := cl[d];
      while cs != {}
        invariant cs <= cl[d] && Tidy(r') && AddRelation(r, r', done, node)
        invariant forall d', c :: Has(done, d', c) <==> (if d' == d then c !in cs else d' !in todo) && Has(cl, d', c)
        decreases |cs|
      {
        var c :| c in cs;
        AddedHas(r', d, c, node);
        r' := Added(r', d, c, node);
        done := WithClaim(done, d, c);
        cs := cs - {c};
      }
      todo := todo - {d};
    }
    assert forall d, c :: Has(done, d, c) <==> Has(cl, d, c);
  }

  /** Deleting, adding and re-weighting replaces what the session claimed. */
  lemma StepsReplace(r: Registry, r1: Registry, r2: Registry, r3: Registry, was: Option<Session>, now: Option<Session>,
                     dels: Claims, news: Claims, comms: Claims)
    requires SameNode(was, now)
    requires forall d, c :: Has(dels, d, c) <==> Claimed(was, d, c) && !Claimed(now, d, c)
    requires forall d, c :: Has(news, d, c) <==> Claimed(now, d, c) && !Claimed(was, d, c)
    requires forall d, c :: Has(comms, d, c) <==> Claimed(was, d, c) && Claimed(now, d, c)
    requires if was.Some? then DelRelation(r, r1, dels, was.value.node.id) else r1 == r
    requires if now.Some? then AddRelation(r1, r2, news, now.value.node) else r2 == r1
    requires if was.Some? && now.Some? && was.value.node.weight != now.value.node.weight
      then AddRelation(r2, r3, comms, now.value.node) else r3 == r2
    ensures Replaced(r, r3, was, now)
  {
  }

  /** An entry of a registration; what is missing is None. The id of a node stands for its
      address and port. */
  datatype Entry = Entry(domain: Option<Domain>, cmds: seq<Cmd>, node: Option<Node>)

  function IdOf(e: Entry): nat {
    if e.node.Some? then e.node.value.id else 0
  }

  predicate WellFormed(e: Entry) {
    e.node.Some? && e.domain.Some? && e.cmds != [] && ValidId(e.node.value)
  }

  /** All entries are well formed, and for one node: that of the session if there is one. */
  predicate Acceptable(es: seq<Entry>, was: Option<Session>) {
    && (forall i :: 0 <= i < |es| ==> WellFormed(es[i]) && IdOf(es[i]) == IdOf(es[0]))
    && (was.Some? && es != [] ==> IdOf(es[0]) == was.value.node.id)
  }

  function ClaimAll(m: Claims, d: Domain, cs: seq<Cmd>): Claims {
    if cs == [] then m else WithClaim(ClaimAll(m, d, cs[..|cs| - 1]), d, cs[|cs| - 1])
  }

  predicate AllWellFormed(es: seq<Entry>) {
    forall i :: 0 <= i < |es| ==> WellFormed(es[i])
  }

  function ClaimsOf(es: seq<Entry>): Claims
    requires AllWellFormed(es)
  {
    if es == [] then map[]
    else
      var e := es[|es| - 1];
      assert WellFormed(e);
      ClaimAll(ClaimsOf(es[..|es| - 1]), e.domain.value, e.cmds)
  }

  /** Some entry names the domain and the command. */
  ghost predicate Asks(es: seq<Entry>, d: Domain, c: Cmd) {
    exists i :: 0 <= i < |es| && es[i].domain == Some(d) && c in es[i].cmds
  }

  lemma {:induction false} ClaimAllHas(m: Claims, d: Domain, cs: seq<Cmd>)
    ensures forall d', c :: Has(ClaimAll(m, d, cs), d', c) <==> Has(m, d', c) || (d' == d && c in cs)
  {
    if cs != [] {
      var most := cs[..|cs| - 1];
      ClaimAllHas(m, d, most);
      assert cs == most + [cs[|cs| - 1]];
    }
  }

  lemma AsksMore(es: seq<Entry>, e: Entry)
    ensures forall d, c :: Asks(es + [e], d, c) <==> Asks(es, d, c) || (e.domain == Some(d) && c in e.cmds)
  {
    var more := es + [e];
    forall d, c
      ensures Asks(more, d, c) <==> Asks(es, d, c) || (e.domain == Some(d) && c in e.cmds)
    {
      if i :| 0 <= i < |es| && es[i].domain == Some(d) && c in es[i].cmds {
        assert more[i] == es[i];
      }
      if j :| 0 <= j < |more| && more[j].domain == Some(d) && c in more[j].cmds {
        assert j < |es| ==> es[j] == more[j];
      }
      assert more[|es|] == e;
    }
  }

  /** A session holds exactly what its entries name. */
  lemma {:induction false} ClaimsAreAsked(es: seq<Entry>)
    requires AllWellFormed(es)
    ensures forall d, c :: Has(ClaimsOf(es), d, c) <==> Asks(es, d, c)
  {
    if es != [] {
      var most, e := es[..|es| - 1], es[|es| - 1];
      assert WellFormed(e);
      ClaimsAreAsked(most);
      ClaimAllHas(ClaimsOf(most), e.domain.value, e.cmds);
      AsksMore(most, e);
      assert es == most + [e];
    }
  }

  /** In a registry that mirrors sessions on nodes of their own, a node has what its session claims. */
  lemma OnOwnNode(r: Registry, ss: Sessions, s: Stream, d: Domain, c: Cmd, n: Node)
    requires Mirrors(r, ss) && s in ss && HasOwnNode(ss, s, ss[s].node.id) && n.id == ss[s].node.id
    ensures In(r, d, c, n) <==> n == ss[s].node && Has(ss[s].claims, d, c)
  {
    if In(r, d, c, n) {
      var t :| t in ss && Offers(ss[t], d, c, n);
      assert t == s;
    }
    if n == ss[s].node && Has(ss[s].claims, d, c) {
      OwnOffer(r, ss, s, d, c);
    }
  }

  /** The session that acceptable entries ask for: none without entries. */
  function SessionOf(es: seq<Entry>): Option<Session>
    requires AllWellFormed(es)
  {
    if es == [] then None else assert WellFormed(es[0]); Some(Session(es[0].node.value, ClaimsOf(es)))
  }

  lemma {:induction false} EntriesMore(es: seq<Entry>, i: nat)
    requires i < |es| && AllWellFormed(es[..i]) && WellFormed(es[i])
    ensures AllWellFormed(es[..i + 1])
    ensures SessionOf(es[..i + 1]) == Some(Session(if i == 0 then es[i].node.value else SessionOf(es[..i]).value.node,
      ClaimAll(ClaimsOf(es[..i]), es[i].domain.value, es[i].cmds)))
  {
    var more := es[..i + 1];
    assert forall j :: 0 <= j < i ==> more[j] == es[..i][j];
    assert more[..i] == es[..i] && more[i] == es[i];
  }

  // ---------------------------------------------------------------- whole runs

  datatype Request =
    | Registration(stream: Stream, entries: seq<Entry>, connected: bool)
    | Disconnection(stream: Stream)

  /** The session that a registration asks for. */
  function Asked(q: Request): Option<Session>
    requires q.Registration? && AllWellFormed(q.entries)
  {
    if q.connected then SessionOf(q.entries) else None
  }

  predicate IsAccepted(ss: Sessions, q: Request) {
    q.Registration? && Acceptable(q.entries, Lookup(ss, q.stream))
  }

  function AfterRequest(ss: Sessions, q: Request): Sessions {
    if q.Disconnection? then ss - {q.stream}
    else if IsAccepted(ss, q) then Updated(ss, q.stream, Asked(q))
    else ss
  }

  function AfterRequests(ss: Sessions, qs: seq<Request>): Sessions
    decreases |qs|
  {
    if qs == [] then ss else AfterRequests(AfterRequest(ss, qs[0]), qs[1..])
  }

  /** Every registration that is accepted is for a node that no other session has by then. */
  ghost predicate OwnNodes(ss: Sessions, qs: seq<Request>)
    decreases |qs|
  {
    qs == [] || (OwnNode(ss, qs[0]) && OwnNodes(AfterRequest(ss, qs[0]), qs[1..]))
  }

  ghost predicate OwnNode(ss: Sessions, q: Request) {
    IsAccepted(ss, q) && Asked(q).Some? ==> HasOwnNode(ss, q.stream, Asked(q).value.node.id)
  }

  /** All entries of a stream are for the node that is its home. */
  predicate Homely(q: Request, home: Stream -> nat) {
    q.Registration? ==> forall i :: 0 <= i < |q.entries| ==> IdOf(q.entries[i]) == home(q.stream)
  }

  /** If every stream has a home of its own and registers nothing else, that is so. */
  lemma {:induction false} HomesAreOwn(ss: Sessions, qs: seq<Request>, home: Stream -> nat)
    requires forall s, t :: s != t ==> home(s) != home(t)
    requires forall s :: s in ss ==> ss[s].node.id == home(s)
    requires forall i :: 0 <= i < |qs| ==> Homely(qs[i], home)
    ensures OwnNodes(ss, qs)
    decreases |qs|
  {
    if qs != [] {
      var q := qs[0];
      assert Homely(q, home);
      if IsAccepted(ss, q) && q.entries != [] {
        assert WellFormed(q.entries[0]) && IdOf(q.entries[0]) == home(q.stream);
      }
      HomesAreOwn(AfterRequest(ss, q), qs[1..], home);
    }
  }

  class Server {
    var domains: Registry
    var sessions: Sessions

    /** What holds whoever registers what. */
    ghost predicate Valid()
      reads this
    {
      && Tidy(domains)
      && (forall s :: s in sessions ==> ValidId(sessions[s].node))
      && (forall d, c, n :: In(domains, d, c, n) ==> ValidId(n))
    }

    /** The registry holds what the live sessions offer. */
    ghost predicate IsMirror()
      reads this
    {
      Mirrors(domains, sessions)
    }

    constructor ()
      ensures Valid() && IsMirror() && sessions == map[] && domains == map[]
    {
      domains, sessions := map[], map[];
      new;
      assert forall d, c, n :: !Offered(sessions, d, c, n);
    }

    /** `set`: the session of a stream becomes `given`, or goes when the stream is not
        connected. Callers see to it that a session keeps its node. */
    method Set(s: Stream, given: Option<Session>, connected: bool)
      requires Valid() && SameNode(Lookup(sessions, s), given) && (given.Some? ==> ValidId(given.value.node))
      modifies this
      ensures Valid()
      ensures var now := if connected then given else None;
        && sessions == Updated(old(sessions), s, now)
        && Replaced(old(domains), domains, Lookup(old(sessions), s), now)
        && (old(IsMirror()) ==> (IsMirror() <==> Fits(old(sessions), s, now)))
    {
      var now := if connected then given else None;
      var was := Lookup(sessions, s);
      var dels, news, comms := Diff(
        if was.Some? then was.value.claims else map[], if now.Some? then now.value.claims else map[]);
      var r1 := domains;
      if was.Some? {
        r1 := DelAll(domains, dels, was.value.node.id);
      }
      var r2 := r1;
      if now.Some? {
        r2 := AddAll(r1, news, now.value.node);
      }
      var r3 := r2;
      if was.Some? && now.Some? && was.value.node.weight != now.value.node.weight {
        r3 := AddAll(r2, comms, now.value.node);
      }
      StepsReplace(domains, r1, r2, r3, was, now, dels, news, comms);
      if IsMirror() {
        ReplacedMirrorsExactly(domains, r3, sessions, s, now);
      }
      domains := r3;
      sessions := Updated(sessions, s, now);
    }

    /** `onDisconnect`. */
    method Disconnect(s: Stream)
      requires Valid()
      modifies this
      ensures Valid() && sessions == old(sessions) - {s}
      ensures old(IsMirror()) ==> (IsMirror() <==> Fits(old(sessions), s, None))
      ensures old(IsMirror() && Apart(sessions)) ==> IsMirror() && Apart(sessions)
    {
      if Apart(sessions) {
        ApartFits(sessions, s, None);
      }
      Set(s, None, false);
    }

    /** `handleRegister`. */
    method Register(s: Stream, es: seq<Entry>, connected: bool) returns (ok: bool)
      requires Valid()
      modifies this
      ensures Valid() && ok == Acceptable(es, Lookup(old(sessions), s))
      // Nothing may be missing, and all entries are for one node: the one that the stream has.
      ensures ok <==>
        forall i :: 0 <= i < |es| ==>
          && es[i].domain.Some? && es[i].cmds != [] && es[i].node.Some?
          && es[i].node.value.id >= 0x1_0000_0000 && IdOf(es[i]) == IdOf(es[0])
          && (s in old(sessions) ==> IdOf(es[i]) == old(sessions)[s].node.id)
      ensures !ok ==> sessions == old(sessions) && domains == old(domains)
      ensures ok ==>
        var now := if connected then SessionOf(es) else None;
        && sessions == Updated(old(sessions), s, now)
        && (old(IsMirror()) ==> (IsMirror() <==> Fits(old(sessions), s, now)))
        && (old(IsMirror() && Apart(sessions)) && (now.Some? ==> HasOwnNode(old(sessions), s, now.value.node.id)) ==>
              IsMirror() && Apart(sessions))
      ensures sessions - {s} == old(sessions) - {s}
      ensures ok && (!connected || es == []) ==> s !in sessions
      // The session holds what the entries name, and so does the registry on its node.
      ensures ok && connected && es != [] ==>
        && s in sessions && es[0].node == Some(sessions[s].node)
        && (forall d, c :: Has(sessions[s].claims, d, c) <==> Asks(es, d, c))
      ensures ok && connected && es != [] ==>
        old(IsMirror() && Apart(sessions) && HasOwnNode(sessions, s, IdOf(es[0]))) ==>
          forall d, c, n: Node :: n.id == IdOf(es[0]) ==>
            (In(domains, d, c, n) <==> Some(n) == es[0].node && Asks(es, d, c))
    {
      var now;
      ok, now := Collect(s, es);
      if ok {
        assert es != [] ==> WellFormed(es[0]);
        Establish(s, now, connected);
        ClaimsAreAsked(es);
        if connected && es != [] && IsMirror() && Apart(sessions) {
          forall d, c, n: Node | n.id == IdOf(es[0])
            ensures In(domains, d, c, n) <==> Some(n) == es[0].node && Asks(es, d, c)
          {
            OnOwnNode(domains, sessions, s, d, c, n);
          }
        }
      }
    }

    /** The loop over the entries: the session that they ask for, unless one of them is refused. */
    method Collect(s: Stream, es: seq<Entry>) returns (ok: bool, now: Option<Session>)
      requires Valid()
      ensures ok == Acceptable(es, Lookup(sessions, s))
      ensures ok ==> now == SessionOf(es)
    {
      var was := Lookup(sessions, s);
      now := None;
      var i := 0;
      while i < |es|
        invariant 0 <= i <= |es|
        invariant forall j :: 0 <= j < i ==> WellFormed(es[j]) && IdOf(es[j]) == IdOf(es[0])
        invariant i > 0 && was.Some? ==> IdOf(es[0]) == was.value.node.id
        invariant AllWellFormed(es[..i]) && now == SessionOf(es[..i])
      {
        var e := es[i];
        assert !WellFormed(e) || IdOf(e) != IdOf(es[0]) ==> !Acceptable(es, was);
        assert was.Some? && was.value.node.id != IdOf(es[0]) ==> !Acceptable(es, was);
        if e.node.None? || e.domain.None? || e.cmds == [] || !ValidId(e.node.value) {
          return false, None;
        }
        if was.Some? && was.value.node.id != e.node.value.id {
          return false, None;
        }
        if now.Some? && now.value.node.id != e.node.value.id {
          return false, None;
        }
        var claims := if now.Some? then now.value.claims else map[];
        EntriesMore(es, i);
        claims := AddCmds(claims, e.domain.value, e.cmds);
        now := Some(Session(if now.Some? then now.value.node else e.node.value, claims));
        i := i + 1;
      }
      assert es[..i] == es;
      ok := true;
    }

    method Establish(s: Stream, given: Option<Session>, connected: bool)
      requires Valid() && SameNode(Lookup(sessions, s), given) && (given.Some? ==> ValidId(given.value.node))
      modifies this
      ensures Valid()
      ensures var now := if connected then given else None;
        && sessions == Updated(old(sessions), s, now)
        && (old(IsMirror()) ==> (IsMirror() <==> Fits(old(sessions), s, now)))
        && (old(IsMirror() && Apart(sessions)) && (now.Some? ==> HasOwnNode(old(sessions), s, now.value.node.id)) ==>
              IsMirror() && Apart(sessions))
    {
      var now := if connected then given else None;
      if Apart(sessions) && (now.Some? ==> HasOwnNode(sessions, s, now.value.node.id)) {
        ApartFits(sessions, s, now);
      }
      Set(s, given, connected);
    }

    /** After every run of registrations and disconnections in which every registration is for a
        node of its own, the registry holds exactly what the live sessions offer. */
    method Serve(qs: seq<Request>)
      requires Valid() && IsMirror() && Apart(sessions) && OwnNodes(sessions, qs)
      modifies this
      ensures Valid() && IsMirror() && Apart(sessions)
      ensures sessions == AfterRequests(old(sessions), qs)
    {
      var i := 0;
      assert qs[0..] == qs;
      while i < |qs|
        invariant 0 <= i <= |qs| && Valid() && IsMirror() && Apart(sessions)
        invariant OwnNodes(sessions, qs[i..])
        invariant AfterRequests(sessions, qs[i..]) == AfterRequests(old(sessions), qs)
      {
        assert qs[i..][0] == qs[i] && qs[i..][1..] == qs[i + 1..];
        ServeOne(qs[i]);
        i := i + 1;
      }
    }

    method ServeOne(q: Request)
      requires Valid() && IsMirror() && Apart(sessions) && OwnNode(sessions, q)
      modifies this
      ensures Valid() && IsMirror() && Apart(sessions) && sessions == AfterRequest(old(sessions), q)
    {
      match q
      case Registration(s, es, connected) =>
        var ok := Register(s, es, connected);
      case Disconnection(s) =>
        Disconnect(s);
    }

    method AddCmds(given: Claims, d: Domain, cs: seq<Cmd>) returns (claims: Claims)
      ensures claims == ClaimAll(given, d, cs)
    {
      claims := given;
      var i := 0;
      while i < |cs|
        invariant 0 <= i <= |cs| && claims == ClaimAll(given, d, cs[..i])
      {
        assert cs[..i + 1][..i] == cs[..i];
        claims := WithClaim(claims, d, cs[i]);
        i := i + 1;
      }
      assert cs[..i] == cs;
    }

    /** `handleQuery`: all nodes of all commands of the domains that there are. */
    method Query(ds: seq<Domain>) returns (rows: seq<Row>)
      requires Valid()
      ensures forall d, c, n :: Listed(rows, d, c, n) <==> d in ds && In(domains, d, c, n)
    {
      rows := [];
      var todo := set d | d in ds && d in domains;
      ghost var all := todo;
      while todo != {}
        invariant todo <= all
        invariant forall d, c, n :: Listed(rows, d, c, n) <==> d in all && d !in todo && In(domains, d, c, n)
        decreases |todo|
      {
        var d :| d in todo;
        rows := ListDomain(domains, d, rows);
        todo := todo - {d};
      }
    }
  }

  // ---------------------------------------------------------------- queries

  datatype Row = Row(domain: Domain, cmd: Cmd, nodes: seq<Node>)

  ghost predicate Listed(rows: seq<Row>, d: Domain, c: Cmd, n: Node) {
    exists i :: 0 <= i < |rows| && rows[i].domain == d && rows[i].cmd == c && n in rows[i].nodes
  }

  lemma ListedMore(rows: seq<Row>, row: Row)
    ensures forall d, c, n :: Listed(rows + [row], d, c, n) <==>
      Listed(rows, d, c, n) || (d == row.domain && c == row.cmd && n in row.nodes)
  {
    var more := rows + [row];
    forall d, c, n
      ensures Listed(more, d, c, n) <==> Listed(rows, d, c, n) || (d == row.domain && c == row.cmd && n in row.nodes)
    {
      if Listed(rows, d, c, n) {
        var i :| 0 <= i < |rows| && rows[i].domain == d && rows[i].cmd == c && n in rows[i].nodes;
        assert more[i] == rows[i];
      }
      if d == row.domain && c == row.cmd && n in row.nodes {
        assert more[|rows|] == row;
      }
      if Listed(more, d, c, n) {
        var i :| 0 <= i < |more| && more[i].domain == d && more[i].cmd == c && n in more[i].nodes;
        if i < |rows| {
          assert rows[i] == more[i];
        }
      }
    }
  }

  /** `listAll` of a node set. */
  method ListNodes(m: NodeSet) returns (nodes: seq<Node>)
    ensures forall n :: n in nodes <==> exists id :: id in m && m[id] == n
  {
    nodes := [];
    var todo := m.Keys;
    while todo != {}
      invariant todo <= m.Keys
      invariant forall n :: n in nodes <==> exists id :: id in m && id !in todo && m[id] == n
      decreases |todo|
    {
      var id :| id in todo;
      nodes := nodes + [m[id]];
      todo := todo - {id};
    }
  }

  /** The rows of one domain. */
  method ListDomain(r: Registry, d: Domain, given: seq<Row>) returns (rows: seq<Row>)
    requires Tidy(r) && d in r && forall c, n :: !Listed(given, d, c, n)
    ensures forall d', c, n :: Listed(rows, d', c, n) <==> if d' == d then In(r, d, c, n) else Listed(given, d', c, n)
  {
    rows := given;
    var todo := r[d].Keys;
    while todo != {}
      invariant todo <= r[d].Keys
      invariant forall d', c, n :: Listed(rows, d', c, n) <==>
        if d' == d then c !in todo && In(r, d, c, n) else Listed(given, d', c, n)
      decreases |todo|
    {
      var c :| c in todo;
      var nodes := ListNodes(r[d][c]);
      assert forall n :: n in nodes <==> In(r, d, c, n);
      ListedMore(rows, Row(d, c, nodes));
      rows := rows + [Row(d, c, nodes)];
      todo := todo - {c};
    }
  }

  // ---------------------------------------------------------------- the client

  /** Rows that name no two nodes of one id for a command. */
  ghost predicate Functional(rows: seq<Row>) {
    forall d, c, n, m :: Listed(rows, d, c, n) && Listed(rows, d, c, m) && n.id == m.id ==> n == m
  }

  /** Adds the valid nodes of a row to a view. */
  method AddRow(view: Registry, row: Row, ghost rows: seq<Row>) returns (r: Registry)
    requires Tidy(view) && Functional(rows) && row in rows
    requires forall n :: In(view, row.domain, row.cmd, n) ==> Listed(rows, row.domain, row.cmd, n)
    ensures Tidy(r)
    ensures forall d, c, n :: In(r, d, c, n) <==>
      In(view, d, c, n) || (d == row.domain && c == row.cmd && n in row.nodes && ValidId(n))
  {
    r := if row.domain in view then view else view[row.domain := map[]];
    ghost var at :| 0 <= at < |rows| && rows[at] == row;
    var i := 0;
    while i < |row.nodes|
      invariant 0 <= i <= |row.nodes| && Tidy(r)
      invariant forall d, c, n :: In(r, d, c, n) <==>
        In(view, d, c, n) || (d == row.domain && c == row.cmd && n in row.nodes[..i] && ValidId(n))
    {
      var node := row.nodes[i];
      assert forall n :: n in row.nodes[..i + 1] <==> n in row.nodes[..i] || n == node;
      if ValidId(node) {
        forall n | In(r, row.domain, row.cmd, n) && n.id == node.id
          ensures n == node
        {
          assert rows[at].domain == row.domain && node in rows[at].nodes;
          assert Listed(rows, row.domain, row.cmd, node);
          assert Listed(rows, row.domain, row.cmd, n);
        }
        AddedHas(r, row.domain, row.cmd, node);
        r := Added(r, row.domain, row.cmd, node);
      }
      i := i + 1;
    }
    assert row.nodes[..i] == row.nodes;
  }

  class Client {
    var queryDomains: seq<Domain>
    var view: Registry

    constructor (queryDomains: seq<Domain>)
      ensures this.queryDomains == queryDomains && view == map[]
    {
      this.queryDomains := queryDomains;
      view := map[];
    }

    /** `query`: the view becomes the registry as far as the queried domains go. Without domains
        nothing is asked, and the request may go unanswered; then the view stays what it was. */
    method Query(server: Server, answered: bool)
      requires server.Valid()
      modifies this`view
      ensures queryDomains == [] || !answered ==> view == old(view)
      ensures queryDomains != [] && answered ==>
        Tidy(view) && forall d, c, n :: In(view, d, c, n) <==> d in queryDomains && In(server.domains, d, c, n)
    {
      if queryDomains == [] || !answered {
        return;
      }
      var rows := server.Query(queryDomains);
      assert Functional(rows);
      var rebuilt := Rebuild(rows);
      view := rebuilt;
    }

    /** The loop over the rows of the answer. */
    method Rebuild(rows: seq<Row>) returns (r: Registry)
      requires Functional(rows)
      ensures Tidy(r)
      ensures forall d, c, n :: In(r, d, c, n) <==> d in queryDomains && Listed(rows, d, c, n) && ValidId(n)
    {
      r := map[];
      var i := 0;
      while i < |rows|
        invariant 0 <= i <= |rows| && Tidy(r)
        invariant forall d, c, n :: In(r, d, c, n) <==> d in queryDomains && Listed(rows[..i], d, c, n) && ValidId(n)
      {
        ListedMore(rows[..i], rows[i]);
        ListedPart(rows, i);
        assert rows[..i] + [rows[i]] == rows[..i + 1];
        if rows[i].domain in queryDomains {
          r := AddRow(r, rows[i], rows);
        }
        i := i + 1;
      }
      assert rows[..i] == rows;
    }
  }

  lemma ListedPart(rows: seq<Row>, i: nat)
    requires i <= |rows|
    ensures forall d, c, n :: Listed(rows[..i], d, c, n) ==> Listed(rows, d, c, n)
  {
    forall d, c, n | Listed(rows[..i], d, c, n)
      ensures Listed(rows, d, c, n)
    {
      var j :| 0 <= j < i && rows[..i][j].domain == d && rows[..i][j].cmd == c && n in rows[..i][j].nodes;
      assert rows[j] == rows[..i][j];
    }
  }
}
