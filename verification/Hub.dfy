/** The hub's side of the control channel (tunnel/ctrlhub.go): one RIB, one stream per
    spoke, and a publish step that installs the routes and pushes one netview per
    revision to every stream that has not had it.

    A stream is modelled by the netviews written to it and not yet read. A publish is one
    step here; module `Protocol` takes it apart and lets anything happen in between. */
module Hub {
  import opened Common
  import opened Net
  import opened Rib
  import opened NetviewRouter

  /** One spoke's slot: whether a stream was ever attached, whether it still carries
      bytes, the revision last pushed to it, and what it still holds unread. */
  datatype Peer = Peer(conn: bool, live: bool, sent: nat, queue: seq<Netview>)

  datatype HubState = HubState(rib: State, published: nat, sink: map<Prefix, Route>, peers: map<Key, Peer>)

  const NO_PEER: Peer := Peer(false, false, 0, [])

  function ClaimsOf(es: seq<Entry>): (r: seq<NetviewClaim>)
    ensures |r| == |es|
    ensures forall i :: 0 <= i < |es| ==> r[i] == NetviewClaim(Cidr(es[i].prefix), es[i].origin, es[i].allow)
  {
    seq(|es|, i requires 0 <= i < |es| => NetviewClaim(Cidr(es[i].prefix), es[i].origin, es[i].allow))
  }

  /** The netview that says what table s says. */
  function Message(id: Key, gen: string, rev: nat, es: seq<Entry>, members: seq<Member>): Netview {
    Netview(id, gen, rev, members, ClaimsOf(es))
  }

  /** n is the netview of revision s.rev of this run of the hub. */
  ghost predicate IsMessageOf(n: Netview, id: Key, gen: string, s: State, rank: Prefix -> nat) {
    exists es :: IsSnapshot(es, s.claims, rank) && n == Message(id, gen, s.rev, es, s.members)
  }

  /** The routes some member carries: a static route with no "via" is not installed. */
  function Installable(claims: Claims): map<Prefix, Route> {
    map p | p in claims && RouteOf(claims[p]).peer != "" :: RouteOf(claims[p])
  }

  /** One stream's part of a publish; a write that fails closes that stream alone. */
  function Push(p: Peer, rev: nat, n: Netview, fails: bool): Peer {
    if !p.conn || p.sent == rev then p
    else if !p.live then p.(sent := rev)
    else if fails then p.(sent := rev, live := false, queue := [])
    else p.(sent := rev, queue := p.queue + [n])
  }

  function Publish(h: HubState, n: Netview, fails: set<Key>): HubState {
    h.(published := h.rib.rev,
       sink := if h.published != h.rib.rev then Installable(h.rib.claims) else h.sink,
       peers := map k | k in h.peers :: Push(h.peers[k], h.rib.rev, n, k in fails))
  }

  /** A fresh stream has seen nothing, whatever the slot's last one had seen. */
  function Open(h: HubState, key: Key): HubState {
    h.(peers := h.peers[key := Peer(true, true, 0, [])])
  }

  function Drop(h: HubState, key: Key): HubState {
    if key in h.peers then h.(peers := h.peers[key := h.peers[key].(live := false, queue := [])]) else h
  }

  /** Register opens a slot for a spoke that has none. */
  function Register(h: HubState, key: Key): HubState {
    if key == "" || key in h.peers then h else h.(peers := h.peers[key := NO_PEER])
  }

  function Unregister(h: HubState, key: Key): HubState {
    h.(peers := h.peers - {key})
  }
}
