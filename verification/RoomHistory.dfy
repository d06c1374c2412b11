/**
 What happens to a room, as a sequence of events, and what the server owes its
 clients after them. Packets are told apart by the position of their event.
 */
module RoomHistory {
  import opened AudioMixer

  const MAX_BUFFER_SIZE := 50
  /** Five seconds, in nanoseconds. */
  const ACTIVITY_TIMEOUT := 5_000_000_000

  datatype Event =
    | Added(id: string)
    | Removed(id: string)
    | Audio(id: string, packet: Packet, now: int)
    | Tick(now: int)

  predicate IsAudio(e: Event, id: string) {
    e.Audio? && e.id == id
  }

  /** The events after which nothing sent before by this client is mixed any more. */
  predicate Drops(e: Event, id: string) {
    e.Tick? || (e.Removed? && e.id == id)
  }

  function Registered(history: seq<Event>): set<string> {
    if history == [] then {}
    else
      var e, before := history[|history| - 1], Registered(history[..|history| - 1]);
      match e
      case Added(id) => before + {id}
      case Removed(id) => before - {id}
      case _ => before
  }

  /** The packets of a client that no tick has mixed and no removal has dropped. */
  function Pending(history: seq<Event>, id: string): (p: seq<nat>)
    ensures forall i :: i in p ==> i < |history| && IsAudio(history[i], id)
  {
    if history == [] then []
    else
      var n := |history| - 1;
      var before := Pending(history[..n], id);
      if IsAudio(history[n], id) then before + [n]
      else if Drops(history[n], id) then []
      else before
  }

  function LastOf<T>(s: seq<T>): (r: seq<T>)
    ensures |r| <= MAX_BUFFER_SIZE && forall x :: x in r ==> x in s
  {
    if |s| <= MAX_BUFFER_SIZE then s else s[|s| - MAX_BUFFER_SIZE..]
  }

  /** Those of the pending packets that the limit on a buffer leaves. */
  function Kept(history: seq<Event>, id: string): (p: seq<nat>)
    ensures forall i :: i in p ==> i < |history| && IsAudio(history[i], id)
  {
    LastOf(Pending(history, id))
  }

  function PacketsAt(history: seq<Event>, places: seq<nat>): (packets: seq<Packet>)
    requires forall k :: 0 <= k < |places| ==> places[k] < |history| && history[places[k]].Audio?
    ensures |packets| == |places|
    ensures forall k :: 0 <= k < |places| ==> packets[k] == history[places[k]].packet
  {
    seq(|places|, k requires 0 <= k < |places| => history[places[k]].packet)
  }

  /** The time of the last packet of a client, if it has sent one. */
  function LastAudio(history: seq<Event>, id: string): int {
    if history == [] then 0
    else if IsAudio(history[|history| - 1], id) then history[|history| - 1].now
    else LastAudio(history[..|history| - 1], id)
  }

  /** How many packets a client has sent since event number `from`. */
  function SentSince(history: seq<Event>, id: string, from: nat): nat {
    if |history| <= from then 0
    else
      SentSince(history[..|history| - 1], id, from) + (if IsAudio(history[|history| - 1], id) then 1 else 0)
  }

  ghost predicate Undropped(history: seq<Event>, id: string, from: nat) {
    forall j :: from <= j < |history| ==> !Drops(history[j], id)
  }

  /** A packet is pending until the first tick after it, or the removal of its sender. */
  lemma {:induction false} PendingIff(history: seq<Event>, id: string, i: nat)
    requires i < |history|
    ensures i in Pending(history, id) <==> IsAudio(history[i], id) && Undropped(history, id, i + 1)
  {
    var n := |history| - 1;
    if i < n { PendingIff(history[..n], id, i); }
    var before := Pending(history[..n], id);
    if IsAudio(history[n], id) {
      assert i in before + [n] <==> i in before || i == n;
    }
    assert forall j :: 0 <= j < n ==> history[..n][j] == history[j];
    assert Undropped(history, id, i + 1) <==>
      if i < n then Undropped(history[..n], id, i + 1) && !Drops(history[n], id) else true;
  }

  lemma SentLater(history: seq<Event>, id: string, from: nat)
    requires |history| <= from
    ensures SentSince(history, id, from) == 0
  {
  }

  /** A pending packet with k later ones of its sender is the last but k on the list. */
  lemma {:induction false} PendingPlace(history: seq<Event>, id: string, i: nat)
    requires i < |history| && i in Pending(history, id)
    ensures var p, later := Pending(history, id), SentSince(history, id, i + 1);
      later < |p| && p[|p| - 1 - later] == i
  {
    var n := |history| - 1;
    if i < n {
      PendingPlace(history[..n], id, i);
    } else {
      SentLater(history, id, i + 1);
    }
  }

  ghost predicate Increasing(s: seq<nat>) {
    forall j, k :: 0 <= j < k < |s| ==> s[j] < s[k]
  }

  lemma LastOfIff(s: seq<nat>, place: nat)
    requires Increasing(s) && place < |s|
    ensures s[place] in LastOf(s) <==> |s| - 1 - place < MAX_BUFFER_SIZE
    ensures Increasing(LastOf(s))
  {
    var r := LastOf(s);
    var cut := |s| - |r|;
    assert forall j :: 0 <= j < |r| ==> r[j] == s[cut + j];
    if place >= cut { assert r[place - cut] == s[place]; }
  }

  lemma {:induction false} PendingOrdered(history: seq<Event>, id: string)
    ensures Increasing(Pending(history, id))
  {
    if history != [] {
      PendingOrdered(history[..|history| - 1], id);
      var before := Pending(history[..|history| - 1], id);
      assert forall j :: 0 <= j < |before| ==> before[j] in before;
    }
  }

  /** Exactly the packets with fewer than 50 later ones survive the limit on the buffer. */
  lemma KeptIff(history: seq<Event>, id: string, i: nat)
    requires i < |history|
    ensures i in Kept(history, id) <==>
      IsAudio(history[i], id) && Undropped(history, id, i + 1) && SentSince(history, id, i + 1) < 50
  {
    PendingIff(history, id, i);
    var p := Pending(history, id);
    if i in p {
      PendingPlace(history, id, i);
      PendingOrdered(history, id);
      LastOfIff(p, |p| - 1 - SentSince(history, id, i + 1));
    }
  }

  /** Whether a tick at time `now` mixes packets of sender `id` for client `to`. */
  predicate Listens(history: seq<Event>, id: string, to: string, now: int) {
    id != to && now - LastAudio(history, id) <= ACTIVITY_TIMEOUT
  }

  /** Whether packet number i is in what a tick now would send to a client. */
  predicate Reaches(history: seq<Event>, i: nat, to: string, now: int) {
    && i < |history| && history[i].Audio?
    && i in Kept(history, history[i].id) && Listens(history, history[i].id, to, now)
  }

  /**
   A packet reaches a client in a tick exactly when that tick is the first one since,
   the sender is another client, has not been removed since, was active in the last
   five seconds, and has sent fewer than 50 packets since.
   */
  lemma ReachesIff(history: seq<Event>, i: nat, to: string, now: int)
    ensures Reaches(history, i, to, now) <==>
      && i < |history| && history[i].Audio? && history[i].id != to
      && Undropped(history, history[i].id, i + 1) && SentSince(history, history[i].id, i + 1) < 50
      && now - LastAudio(history, history[i].id) <= 5_000_000_000
  {
    if i < |history| && history[i].Audio? { KeptIff(history, history[i].id, i); }
  }

  /** A packet that was there at one tick reaches nobody at a later one. */
  lemma AtMostOneTick(history: seq<Event>, tick: nat, i: nat, to: string, now: int)
    requires i < tick < |history| && history[tick].Tick?
    ensures !Reaches(history, i, to, now)
  {
    ReachesIff(history, i, to, now);
    if history[i].Audio? { assert Drops(history[tick], history[i].id); }
  }

  function KeptPlaces(history: seq<Event>, id: string): (p: seq<nat>)
    ensures p == Kept(history, id)
    ensures forall k :: 0 <= k < |p| ==> p[k] < |history| && IsAudio(history[p[k]], id)
  {
    var p := Kept(history, id);
    assert forall k :: 0 <= k < |p| ==> p[k] in p;
    p
  }

  /** The packets to be mixed for a client, with the buffers taken in this order. */
  function Places(history: seq<Event>, order: seq<string>, to: string, now: int): (p: seq<nat>)
    ensures forall k :: 0 <= k < |p| ==> p[k] < |history| && history[p[k]].Audio?
  {
    if order == [] then []
    else
      var n := |order| - 1;
      Places(history, order[..n], to, now)
        + (if Listens(history, order[n], to, now) then KeptPlaces(history, order[n]) else [])
  }

  /** A tick mixes for a client exactly the packets that reach it. */
  lemma {:induction false} PlacesAreReached(history: seq<Event>, order: seq<string>, to: string, now: int, i: nat)
    ensures i in Places(history, order, to, now) <==>
      Reaches(history, i, to, now) && history[i].id in order
  {
    if order != [] {
      var n := |order| - 1;
      PlacesAreReached(history, order[..n], to, now, i);
      var more := if Listens(history, order[n], to, now) then KeptPlaces(history, order[n]) else [];
      assert i in Places(history, order, to, now) <==> i in Places(history, order[..n], to, now) || i in more;
      assert order == order[..n] + [order[n]];
      assert i in more ==> exists k :: 0 <= k < |more| && more[k] == i;
    }
  }

  ghost predicate NoRepeats<T>(s: seq<T>) {
    forall j, k :: 0 <= j < k < |s| ==> s[j] != s[k]
  }

  lemma KeptOrdered(history: seq<Event>, id: string)
    ensures Increasing(Kept(history, id))
  {
    PendingOrdered(history, id);
    if Pending(history, id) != [] { LastOfIff(Pending(history, id), 0); }
  }

  /** No packet is mixed twice in one tick. */
  lemma {:induction false} PlacesOnce(history: seq<Event>, order: seq<string>, to: string, now: int)
    requires NoRepeats(order)
    ensures NoRepeats(Places(history, order, to, now))
  {
    if order != [] {
      var n := |order| - 1;
      PlacesOnce(history, order[..n], to, now);
      KeptOrdered(history, order[n]);
      var before := Places(history, order[..n], to, now);
      var more := if Listens(history, order[n], to, now) then KeptPlaces(history, order[n]) else [];
      forall j, k | 0 <= j < |before| && 0 <= k < |more| ensures before[j] != more[k] {
        PlacesAreReached(history, order[..n], to, now, before[j]);
        assert before[j] in before;
      }
    }
  }
}
