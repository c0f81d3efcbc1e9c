/** What the hub's own methods do to its slots is what the system's steps do to them. */
module HubSteps {
  import opened Common
  import opened Rib
  import opened Hub
  import opened Protocol

  function PeersOf(streams: map<Sid, Stream>, slots: map<Key, Slot>): map<Key, Peer> {
    map k | k in slots :: PeerOf(streams, slots[k])
  }

  lemma HubIs(s: Sys)
    ensures HubOf(s) == HubState(s.rib, s.published, s.sink, PeersOf(s.streams, s.slots))
  {
  }

  lemma OnePeerSet(streams: map<Sid, Stream>, slots: map<Key, Slot>, after: map<Sid, Stream>, key: Key, slot: Slot)
    requires forall k :: k in slots && k != key ==> PeerOf(after, slots[k]) == PeerOf(streams, slots[k])
    ensures PeersOf(after, slots[key := slot]) == PeersOf(streams, slots)[key := PeerOf(after, slot)]
  {
  }

  /** Enrolling a spoke is the hub's Register. */
  lemma RegisterAlone(c: Run, s: Sys, key: Key, t: Sys)
    requires Next(c, s, Enroll(key), t)
    ensures HubOf(t) == Register(HubOf(s), key)
  {
    HubIs(s);
    HubIs(t);
    OnePeerSet(s.streams, s.slots, s.streams, key, Slot(None, 0));
  }

  /** Taking it out is its Unregister. */
  lemma UnregisterAlone(c: Run, s: Sys, key: Key, t: Sys)
    requires Next(c, s, Expel(key), t)
    ensures HubOf(t) == Unregister(HubOf(s), key)
  {
    HubIs(s);
    HubIs(t);
    PeerTaken(s.streams, s.slots, key);
  }

  lemma PeerTaken(streams: map<Sid, Stream>, slots: map<Key, Slot>, key: Key)
    ensures PeersOf(streams, slots - {key}) == PeersOf(streams, slots) - {key}
  {
  }

  /** A control stream that is accepted, from a spoke with or without a slot, is the hub's
      OpenStream. */
  lemma OpenAlone(c: Run, s: Sys, key: Key, u: Sys, sid: Sid, t: Sys)
    requires Inv(c, s) && key != ""
    requires Next(c, s, Enroll(key), u) && Next(c, u, Attach(key, sid), t)
    ensures HubOf(t) == Open(HubOf(s), key)
  {
    AcceptedIs(c, s, key, u, sid, t);
    AcceptedPeers(s, key, sid, t);
  }

  lemma AcceptedIs(c: Run, s: Sys, key: Key, u: Sys, sid: Sid, t: Sys)
    requires key != "" && Next(c, s, Enroll(key), u) && Next(c, u, Attach(key, sid), t)
    ensures sid !in s.streams
    ensures t == s.(streams := s.streams[sid := Stream(key, true, [], 0)], slots := s.slots[key := Slot(Some(sid), 0)])
  {
    Enrolled(s.slots, u.slots, key, Slot(Some(sid), 0));
  }

  lemma AcceptedPeers(s: Sys, key: Key, sid: Sid, t: Sys)
    requires SlotsOk(s) && sid !in s.streams
    requires t == s.(streams := s.streams[sid := Stream(key, true, [], 0)], slots := s.slots[key := Slot(Some(sid), 0)])
    ensures HubOf(t) == Open(HubOf(s), key)
  {
    HubIs(s);
    HubIs(t);
    NoneHoldsANewOne(s.streams, s.slots, sid, Stream(key, true, [], 0));
    OnePeerSet(s.streams, s.slots, t.streams, key, Slot(Some(sid), 0));
  }

  lemma Enrolled(slots: map<Key, Slot>, more: map<Key, Slot>, key: Key, slot: Slot)
    requires more == if key in slots then slots else slots[key := Slot(None, 0)]
    ensures more[key := slot] == slots[key := slot]
  {
  }

  lemma NoneHoldsANewOne(streams: map<Sid, Stream>, slots: map<Key, Slot>, sid: Sid, st: Stream)
    requires sid !in streams && forall k :: k in slots ==> SlotOk(streams, k, slots[k])
    ensures forall k :: k in slots ==> PeerOf(streams[sid := st], slots[k]) == PeerOf(streams, slots[k])
  {
    forall k | k in slots
      ensures PeerOf(streams[sid := st], slots[k]) == PeerOf(streams, slots[k])
    {
      assert SlotOk(streams, k, slots[k]);
    }
  }

  /** The stream a slot holds dies: the hub's CloseStream. One that no slot holds any more is
      nothing to the hub. */
  lemma CloseAlone(c: Run, s: Sys, sid: Sid, t: Sys)
    requires Inv(c, s) && Next(c, s, Detach(sid), t)
    ensures var key := s.streams[sid].key;
      HubOf(t) == if key in s.slots && s.slots[key].conn == Some(sid) then Drop(HubOf(s), key) else HubOf(s)
  {
    HubIs(s);
    HubIs(t);
    DeadPeer(s.streams, s.slots, sid);
  }

  lemma DeadPeer(streams: map<Sid, Stream>, slots: map<Key, Slot>, sid: Sid)
    requires sid in streams && forall k :: k in slots ==> SlotOk(streams, k, slots[k])
    ensures var key, after := streams[sid].key, streams[sid := streams[sid].(live := false, queue := [])];
      var peers := PeersOf(streams, slots);
      PeersOf(after, slots)
      == if key in slots && slots[key].conn == Some(sid) then peers[key := peers[key].(live := false, queue := [])] else peers
  {
    forall k | k in slots
      ensures slots[k].conn == Some(sid) ==> streams[sid].key == k
    {
      assert SlotOk(streams, k, slots[k]);
    }
  }
}
