/**
 The room of the server (RoomManager.h): who is in it, the packets that wait to be
 mixed, and the tick that mixes them. Unordered maps are walked in any order.
 */
module RoomManagement {
  import opened AudioMixer
  import opened RoomHistory
  import opened Sequences

  datatype Client = Client(id: string)
  datatype Option<T> = None | Some(value: T)

  /** A call of a client's send. */
  datatype Send = Send(to: string, packet: Packet)

  /** What one client is sent, in order. */
  function SentTo(sends: seq<Send>, to: string): seq<Packet> {
    if sends == [] then []
    else
      var last := sends[|sends| - 1];
      SentTo(sends[..|sends| - 1], to) + (if last.to == to then [last.packet] else [])
  }

  function BufferOf(buffers: map<string, seq<Packet>>, id: string): seq<Packet> {
    if id in buffers then buffers[id] else []
  }

  /** The time stamp that operator[] finds, or inserts when there is none. */
  function StampOf(stamps: map<string, int>, id: string): int {
    if id in stamps then stamps[id] else 0
  }

  /** What one buffer gives to a client's mix. */
  function Share(buffers: map<string, seq<Packet>>, stamps: map<string, int>,
                 id: string, to: string, now: int): seq<Packet>
  {
    if id != to && now - StampOf(stamps, id) <= ACTIVITY_TIMEOUT then BufferOf(buffers, id) else []
  }

  /** The packets for one client, with the buffers taken in this order. */
  function Gathered(buffers: map<string, seq<Packet>>, stamps: map<string, int>,
                    order: seq<string>, to: string, now: int): seq<Packet>
  {
    if order == [] then []
    else
      Gathered(buffers, stamps, order[..|order| - 1], to, now)
        + Share(buffers, stamps, order[|order| - 1], to, now)
  }

  ghost predicate Enumerates(order: seq<string>, keys: set<string>) {
    multiset(order) == multiset(keys)
  }

  lemma WithoutLast(order: seq<string>, k: nat)
    requires k < |order| - 1
    ensures var n := |order| - 1;
      (order[..k] + order[k + 1..])[..n - 1] == order[..n][..k] + order[..n][k + 1..]
  {
  }

  lemma GatheredLast(buffers: map<string, seq<Packet>>, stamps: map<string, int>,
                     order: seq<string>, to: string, now: int)
    requires order != []
    ensures multiset(Gathered(buffers, stamps, order, to, now))
      == multiset(Gathered(buffers, stamps, order[..|order| - 1], to, now))
       + multiset(Share(buffers, stamps, order[|order| - 1], to, now))
  {
  }

  /** Taking one buffer out of the middle of the order. */
  lemma {:induction false} GatheredWithout(buffers: map<string, seq<Packet>>, stamps: map<string, int>,
                                           order: seq<string>, k: nat, to: string, now: int)
    requires k < |order|
    ensures multiset(Gathered(buffers, stamps, order, to, now))
      == multiset(Gathered(buffers, stamps, order[..k] + order[k + 1..], to, now))
       + multiset(Share(buffers, stamps, order[k], to, now))
  {
    hide Share, Gathered;
    var rest, n := order[..k] + order[k + 1..], |order| - 1;
    GatheredLast(buffers, stamps, order, to, now);
    if k == n {
      assert rest == order[..n];
    } else {
      GatheredWithout(buffers, stamps, order[..n], k, to, now);
      GatheredLast(buffers, stamps, rest, to, now);
      assert rest[..n - 1] == order[..n][..k] + order[..n][k + 1..] by { WithoutLast(order, k); }
      assert rest[n - 1] == order[n] && order[..n][k] == order[k];
    }
  }

  lemma {:induction false} GatheredIsOrderless(buffers: map<string, seq<Packet>>, stamps: map<string, int>,
                                               p: seq<string>, q: seq<string>, to: string, now: int)
    requires multiset(p) == multiset(q)
    ensures multiset(Gathered(buffers, stamps, p, to, now)) == multiset(Gathered(buffers, stamps, q, to, now))
    decreases |p|
  {
    hide Share;
    assert |multiset(p)| == |p| && |multiset(q)| == |q|;
    if p != [] {
      var n := |p| - 1;
      var k := PlaceOf(p, q);
      GatheredIsOrderless(buffers, stamps, p[..n], q[..k] + q[k + 1..], to, now);
      GatheredWithout(buffers, stamps, q, k, to, now);
    }
  }

  /** What a client is sent does not depend on the order in which the buffers are walked. */
  lemma OrderDoesNotMatter(buffers: map<string, seq<Packet>>, stamps: map<string, int>,
                           p: seq<string>, q: seq<string>, to: string, now: int)
    requires Enumerates(p, buffers.Keys) && Enumerates(q, buffers.Keys)
    ensures var a, b := Gathered(buffers, stamps, p, to, now), Gathered(buffers, stamps, q, to, now);
      Mixed(a) == Mixed(b) && (a == [] <==> b == [])
  {
    GatheredIsOrderless(buffers, stamps, p, q, to, now);
    var a, b := Gathered(buffers, stamps, p, to, now), Gathered(buffers, stamps, q, to, now);
    MixIsOrderless(a, b);
    assert |multiset(a)| == |a| && |multiset(b)| == |b|;
  }

  /** Every buffer holds what the history says, as far as the limit on its size leaves it. */
  ghost predicate BuffersMatch(history: seq<Event>, buffers: map<string, seq<Packet>>) {
    forall id: string :: BufferOf(buffers, id) == PacketsAt(history, KeptPlaces(history, id))
  }

  ghost predicate StampsMatch(history: seq<Event>, stamps: map<string, int>) {
    forall id :: id in stamps ==> stamps[id] == LastAudio(history, id)
  }

  lemma PacketsStay(history: seq<Event>, e: Event, places: seq<nat>)
    requires forall k :: 0 <= k < |places| ==> places[k] < |history| && history[places[k]].Audio?
    ensures PacketsAt(history + [e], places) == PacketsAt(history, places)
  {
  }

  lemma KeptStays(history: seq<Event>, e: Event, id: string)
    requires !IsAudio(e, id) && !Drops(e, id)
    ensures PacketsAt(history + [e], KeptPlaces(history + [e], id)) == PacketsAt(history, KeptPlaces(history, id))
  {
    assert (history + [e])[..|history|] == history;
    PacketsStay(history, e, KeptPlaces(history, id));
  }

  lemma KeptIsDropped(history: seq<Event>, e: Event, id: string)
    requires Drops(e, id)
    ensures PacketsAt(history + [e], KeptPlaces(history + [e], id)) == []
  {
  }

  lemma LastOfGrows<T>(s: seq<T>, x: T)
    ensures LastOf(s + [x]) == LastOf(LastOf(s) + [x])
  {
  }

  lemma LastPackets(history: seq<Event>, places: seq<nat>)
    requires forall k :: 0 <= k < |places| ==> places[k] < |history| && history[places[k]].Audio?
    ensures forall k :: 0 <= k < |LastOf(places)| ==>
      LastOf(places)[k] < |history| && history[LastOf(places)[k]].Audio?
    ensures PacketsAt(history, LastOf(places)) == LastOf(PacketsAt(history, places))
  {
    var last := LastOf(places);
    assert forall k :: 0 <= k < |last| ==> last[k] == places[|places| - |last| + k];
  }

  /** One more packet, and when there are too many, the first one falls out. */
  lemma KeptGrows(history: seq<Event>, e: Event, id: string)
    requires IsAudio(e, id)
    ensures PacketsAt(history + [e], KeptPlaces(history + [e], id))
      == LastOf(PacketsAt(history, KeptPlaces(history, id)) + [e.packet])
  {
    var h, n := history + [e], |history|;
    assert h[..n] == history;
    var p, k := Pending(history, id), KeptPlaces(history, id);
    assert Pending(h, id) == p + [n];
    LastOfGrows(p, n);
    PacketsStay(history, e, k);
    LastPackets(h, k + [n]);
    assert PacketsAt(h, k + [n]) == PacketsAt(h, k) + [e.packet];
  }

  lemma MatchAfterAdd(history: seq<Event>, buffers: map<string, seq<Packet>>, id: string)
    requires BuffersMatch(history, buffers)
    ensures BuffersMatch(history + [Added(id)], buffers)
  {
    forall other: string
      ensures BufferOf(buffers, other) == PacketsAt(history + [Added(id)], KeptPlaces(history + [Added(id)], other))
    {
      KeptStays(history, Added(id), other);
    }
  }

  lemma MatchAfterRemove(history: seq<Event>, buffers: map<string, seq<Packet>>, id: string)
    requires BuffersMatch(history, buffers)
    ensures BuffersMatch(history + [Removed(id)], buffers - {id})
  {
    var e := Removed(id);
    forall other: string
      ensures BufferOf(buffers - {id}, other) == PacketsAt(history + [e], KeptPlaces(history + [e], other))
    {
      if other == id { KeptIsDropped(history, e, other); } else { KeptStays(history, e, other); }
    }
  }

  lemma MatchAfterAudio(history: seq<Event>, buffers: map<string, seq<Packet>>, e: Event)
    requires BuffersMatch(history, buffers) && e.Audio?
    ensures BuffersMatch(history + [e], buffers[e.id := LastOf(BufferOf(buffers, e.id) + [e.packet])])
  {
    var after := buffers[e.id := LastOf(BufferOf(buffers, e.id) + [e.packet])];
    forall other: string
      ensures BufferOf(after, other) == PacketsAt(history + [e], KeptPlaces(history + [e], other))
    {
      if other == e.id { KeptGrows(history, e, other); } else { KeptStays(history, e, other); }
    }
  }

  lemma MatchAfterTick(history: seq<Event>, buffers: map<string, seq<Packet>>, now: int)
    requires forall id :: id in buffers ==> buffers[id] == []
    ensures BuffersMatch(history + [Tick(now)], buffers)
  {
    var e := Tick(now);
    forall other: string
      ensures BufferOf(buffers, other) == PacketsAt(history + [e], KeptPlaces(history + [e], other))
    {
      KeptIsDropped(history, e, other);
    }
  }

  lemma PacketsJoin(history: seq<Event>, a: seq<nat>, b: seq<nat>)
    requires forall k :: 0 <= k < |a| ==> a[k] < |history| && history[a[k]].Audio?
    requires forall k :: 0 <= k < |b| ==> b[k] < |history| && history[b[k]].Audio?
    ensures PacketsAt(history, a + b) == PacketsAt(history, a) + PacketsAt(history, b)
  {
  }

  lemma ShareIsReached(history: seq<Event>, buffers: map<string, seq<Packet>>,
                       stamps: map<string, int>, id: string, to: string, now: int)
    requires BuffersMatch(history, buffers) && StampsMatch(history, stamps) && id in stamps
    ensures Share(buffers, stamps, id, to, now)
      == PacketsAt(history, if Listens(history, id, to, now) then KeptPlaces(history, id) else [])
  {
    hide KeptPlaces, LastAudio;
    assert StampOf(stamps, id) == LastAudio(history, id);
    assert BufferOf(buffers, id) == PacketsAt(history, KeptPlaces(history, id));
  }

  /** What is gathered for a client are the packets that reach it according to the history. */
  lemma {:induction false} GatheredIsReached(history: seq<Event>, buffers: map<string, seq<Packet>>,
                                             stamps: map<string, int>, order: seq<string>, to: string, now: int)
    requires BuffersMatch(history, buffers) && StampsMatch(history, stamps)
    requires forall id :: id in order ==> id in stamps
    ensures Gathered(buffers, stamps, order, to, now) == PacketsAt(history, Places(history, order, to, now))
  {
    if order != [] {
      var n := |order| - 1;
      GatheredIsReached(history, buffers, stamps, order[..n], to, now);
      assert order[n] in order;
      var more := if Listens(history, order[n], to, now) then KeptPlaces(history, order[n]) else [];
      ShareIsReached(history, buffers, stamps, order[n], to, now);
      hide BuffersMatch, StampsMatch, Share, Listens, KeptPlaces, PacketsAt;
      PacketsJoin(history, Places(history, order[..n], to, now), more);
    }
  }

  /** The three maps of a room agree with its history. */
  ghost predicate RoomMatches(history: seq<Event>, clients: map<string, Client>,
                              buffers: map<string, seq<Packet>>, stamps: map<string, int>)
  {
    && clients.Keys == Registered(history) && (forall id :: id in clients ==> clients[id].id == id)
    && BuffersMatch(history, buffers) && StampsMatch(history, stamps)
    && buffers.Keys <= stamps.Keys
  }

  lemma RoomAfterAdd(history: seq<Event>, clients: map<string, Client>,
                     buffers: map<string, seq<Packet>>, stamps: map<string, int>, client: Client)
    requires RoomMatches(history, clients, buffers, stamps)
    ensures RoomMatches(history + [Added(client.id)], clients[client.id := client], buffers, stamps)
  {
    MatchAfterAdd(history, buffers, client.id);
    assert (history + [Added(client.id)])[..|history|] == history;
  }

  lemma RoomAfterRemove(history: seq<Event>, clients: map<string, Client>,
                        buffers: map<string, seq<Packet>>, stamps: map<string, int>, id: string)
    requires RoomMatches(history, clients, buffers, stamps)
    ensures RoomMatches(history + [Removed(id)], clients - {id}, buffers - {id}, stamps)
  {
    MatchAfterRemove(history, buffers, id);
    assert (history + [Removed(id)])[..|history|] == history;
  }

  lemma RoomAfterAudio(history: seq<Event>, clients: map<string, Client>,
                       buffers: map<string, seq<Packet>>, stamps: map<string, int>, e: Event)
    requires RoomMatches(history, clients, buffers, stamps) && e.Audio?
    ensures RoomMatches(history + [e], clients,
                        buffers[e.id := LastOf(BufferOf(buffers, e.id) + [e.packet])], stamps[e.id := e.now])
  {
    MatchAfterAudio(history, buffers, e);
    assert (history + [e])[..|history|] == history;
  }

  function Emptied(buffers: map<string, seq<Packet>>): map<string, seq<Packet>> {
    map id | id in buffers :: []
  }

  /** After a tick, buffers are empty, and some stamps may have gone with their buffers. */
  lemma RoomAfterTick(history: seq<Event>, clients: map<string, Client>, buffers: map<string, seq<Packet>>,
                      stamps: map<string, int>, gone: set<string>, now: int)
    requires RoomMatches(history, clients, buffers, stamps)
    ensures RoomMatches(history + [Tick(now)], clients, Emptied(buffers) - gone, stamps - gone)
  {
    MatchAfterTick(history, Emptied(buffers) - gone, now);
    assert (history + [Tick(now)])[..|history|] == history;
  }

  lemma BoundedBuffer(history: seq<Event>, buffers: map<string, seq<Packet>>, id: string)
    requires BuffersMatch(history, buffers)
    ensures |BufferOf(buffers, id)| <= MAX_BUFFER_SIZE
  {
  }

  /** So many full buffers are mixed exactly. */
  const MOST_EXACT_BUFFERS: nat := 1310

  lemma ShareBound(history: seq<Event>, buffers: map<string, seq<Packet>>,
                   stamps: map<string, int>, id: string, to: string, now: int)
    requires BuffersMatch(history, buffers)
    ensures |Share(buffers, stamps, id, to, now)| <= if id == to then 0 else MAX_BUFFER_SIZE
  {
    BoundedBuffer(history, buffers, id);
    hide BuffersMatch, BufferOf, StampOf;
  }

  lemma LastOrBefore(order: seq<string>, id: string)
    requires order != []
    ensures id in order <==> id in order[..|order| - 1] || id == order[|order| - 1]
  {
  }

  /** A client is mixed at most 50 packets of each buffer, and none of its own. */
  lemma {:induction false} GatheredBound(history: seq<Event>, buffers: map<string, seq<Packet>>,
                                         stamps: map<string, int>, order: seq<string>, to: string, now: int)
    requires BuffersMatch(history, buffers)
    ensures |Gathered(buffers, stamps, order, to, now)| + (if to in order then MAX_BUFFER_SIZE else 0)
      <= MAX_BUFFER_SIZE * |order|
  {
    if order != [] {
      var n := |order| - 1;
      GatheredBound(history, buffers, stamps, order[..n], to, now);
      ShareBound(history, buffers, stamps, order[n], to, now);
      LastOrBefore(order, to);
      hide BuffersMatch, Share;
    }
  }

  /** Those that have sent nothing for more than five seconds. */
  function Inactive(stamps: map<string, int>, now: int): set<string> {
    set id | id in stamps && now - stamps[id] > ACTIVITY_TIMEOUT
  }

  /** The packets due to a client for which these were gathered. */
  function Due(registered: bool, packets: seq<Packet>): seq<Packet> {
    if registered && packets != [] then [Mixed(packets)] else []
  }

  /** Those who stay are the ones that have sent something in the last five seconds. */
  lemma StillActive(buffers: map<string, seq<Packet>>, stamps: map<string, int>, now: int)
    requires buffers.Keys <= stamps.Keys
    ensures var gone := Inactive(stamps, now);
      && (forall id :: id in stamps - gone <==> id in stamps && now - stamps[id] <= 5_000_000_000)
      && (forall id :: id in Emptied(buffers) - gone <==> id in buffers && id in stamps - gone)
      && (forall id :: id in Emptied(buffers) - gone ==> (Emptied(buffers) - gone)[id] == [])
  {
  }

  /**
   Each of these clients is sent one packet, the mix of what is gathered for it, in
   any order, or none when nothing is; nobody else is sent anything.
   */
  ghost predicate Delivered(sends: seq<Send>, clients: set<string>,
                            buffers: map<string, seq<Packet>>, stamps: map<string, int>, now: int)
  {
    forall to: string, order: seq<string> :: Enumerates(order, buffers.Keys) ==>
      SentTo(sends, to) == Due(to in clients, Gathered(buffers, stamps, order, to, now))
  }

  lemma SentMore(sends: seq<Send>, send: Send, to: string)
    ensures SentTo(sends + [send], to) == SentTo(sends, to) + if send.to == to then [send.packet] else []
  {
    assert (sends + [send])[..|sends|] == sends;
  }

  lemma DeliveredMore(before: seq<Send>, after: seq<Send>, done: set<string>,
                      buffers: map<string, seq<Packet>>, stamps: map<string, int>, now: int,
                      id: string, order: seq<string>)
    requires Delivered(before, done, buffers, stamps, now) && id !in done && Enumerates(order, buffers.Keys)
    requires var packets := Gathered(buffers, stamps, order, id, now);
      after == before + if packets != [] then [Send(id, Mixed(packets))] else []
    ensures Delivered(after, done + {id}, buffers, stamps, now)
  {
    hide Gathered, Mixed;
    forall to: string, other: seq<string> | Enumerates(other, buffers.Keys)
      ensures SentTo(after, to) == Due(to in done + {id}, Gathered(buffers, stamps, other, to, now))
    {
      if to == id { OrderDoesNotMatter(buffers, stamps, order, other, to, now); }
      assert SentTo(before, to) == Due(to in done, Gathered(buffers, stamps, other, to, now));
      if Gathered(buffers, stamps, order, id, now) == [] {
        assert after == before;
      } else {
        SentMore(before, Send(id, Mixed(Gathered(buffers, stamps, order, id, now))), to);
      }
    }
  }

  lemma SenderIsBuffered(history: seq<Event>, buffers: map<string, seq<Packet>>, i: nat)
    requires BuffersMatch(history, buffers) && i < |history| && history[i].Audio?
    requires i in Kept(history, history[i].id)
    ensures history[i].id in buffers
  {
    assert |BufferOf(buffers, history[i].id)| == |KeptPlaces(history, history[i].id)|;
  }

  lemma EnumerationIsExact(order: seq<string>, keys: set<string>)
    requires Enumerates(order, keys)
    ensures NoRepeats(order) && forall id :: id in order <==> id in keys
  {
    forall j, k | 0 <= j < k < |order| ensures order[j] != order[k] {
      assert order == order[..k] + [order[k]] + order[k + 1..];
      assert multiset(order) == multiset(order[..k]) + multiset{order[k]} + multiset(order[k + 1..]);
      assert order[j] in order[..k] && multiset(order[..k])[order[j]] > 0;
      assert multiset(keys)[order[k]] <= 1;
    }
    forall id ensures id in order <==> id in keys {
      assert id in order <==> id in multiset(order);
    }
  }

  /**
   What a tick sends to a client is the mix of exactly the packets that reach it
   according to the history, each of them once; it sends nothing when there are none.
   */
  lemma TickMixesWhatReaches(history: seq<Event>, clients: map<string, Client>, buffers: map<string, seq<Packet>>,
                             stamps: map<string, int>, sends: seq<Send>, now: int,
                             to: string, order: seq<string>)
    requires RoomMatches(history, clients, buffers, stamps) && Enumerates(order, buffers.Keys)
    requires Delivered(sends, clients.Keys, buffers, stamps, now)
    ensures var places := Places(history, order, to, now);
      && NoRepeats(places) && (forall i :: i in places <==> Reaches(history, i, to, now))
      && SentTo(sends, to)
         == (if to in Registered(history) && places != [] then [Mixed(PacketsAt(history, places))] else [])
  {
    EnumerationIsExact(order, buffers.Keys);
    GatheredIsReached(history, buffers, stamps, order, to, now);
    PlacesOnce(history, order, to, now);
    forall i ensures i in Places(history, order, to, now) <==> Reaches(history, i, to, now) {
      PlacesAreReached(history, order, to, now, i);
      if Reaches(history, i, to, now) { SenderIsBuffered(history, buffers, i); }
    }
  }

  /** Storing the stamp that operator[] found changes nothing when it was there. */
  lemma SameStamp(stamps: map<string, int>, id: string)
    requires id in stamps
    ensures stamps[id := StampOf(stamps, id)] == stamps
  {
  }

  lemma GatheredMore(buffers: map<string, seq<Packet>>, stamps: map<string, int>,
                     order: seq<string>, id: string, to: string, now: int)
    ensures Gathered(buffers, stamps, order + [id], to, now)
      == Gathered(buffers, stamps, order, to, now) + Share(buffers, stamps, id, to, now)
  {
    assert (order + [id])[..|order|] == order;
  }

  lemma EnumerationSize(order: seq<string>, keys: set<string>, id: string)
    requires Enumerates(order, keys)
    ensures |order| == |keys - {id}| + (if id in order then 1 else 0)
  {
    EnumerationIsExact(order, keys);
    assert |order| == |multiset(order)| == |keys|;
    if id in keys { assert keys == (keys - {id}) + {id}; } else { assert keys - {id} == keys; }
  }

  lemma OneMoreKey(order: seq<string>, keys: set<string>, todo: set<string>, id: string)
    requires Enumerates(order, keys - todo) && id in todo && todo <= keys
    ensures Enumerates(order + [id], keys - (todo - {id}))
  {
    assert keys - (todo - {id}) == (keys - todo) + {id};
  }

  lemma OnlyKey(keys: set<string>, id: string)
    requires id in keys
    ensures |keys| == 1 <==> keys == {id}
  {
    if |keys| == 1 { assert |keys - {id}| == 0; }
  }

  class RoomManager {
    var clients: map<string, Client>
    var audioBuffers: map<string, seq<Packet>>
    var clientLastActivity: map<string, int>
    /** How often a client joining has started the mixing timer. */
    var timerStarts: nat
    ghost var history: seq<Event>

    ghost predicate Valid()
      reads this
    {
      RoomMatches(history, clients, audioBuffers, clientLastActivity)
    }

    constructor ()
      ensures Valid() && history == [] && timerStarts == 0
    {
      clients, audioBuffers, clientLastActivity := map[], map[], map[];
      timerStarts, history := 0, [];
    }

    /** No buffer ever holds more than 50 packets. */
    lemma BuffersAreBounded(id: string)
      requires Valid() && id in audioBuffers
      ensures |audioBuffers[id]| <= 50
    {
      BoundedBuffer(history, audioBuffers, id);
    }

    /** With up to 1310 buffers, not counting the client's own, every tick's mix is exact. */
    lemma TickIsExact(order: seq<string>, to: string, now: int)
      requires Valid() && Enumerates(order, audioBuffers.Keys)
      requires |audioBuffers.Keys - {to}| <= MOST_EXACT_BUFFERS
      ensures Exact(Gathered(audioBuffers, clientLastActivity, order, to, now))
    {
      assert BuffersMatch(history, audioBuffers);
      hide *;
      EnumerationSize(order, audioBuffers.Keys, to);
      GatheredBound(history, audioBuffers, clientLastActivity, order, to, now);
      NoOverflow(Gathered(audioBuffers, clientLastActivity, order, to, now));
    }

    method StartMixingTimer()
      modifies this`timerStarts
      ensures timerStarts == old(timerStarts) + 1
    {
      timerStarts := timerStarts + 1;
    }

    /** Registers a client. When the room then holds one client, the mixing timer is started. */
    method AddClient(client: Client)
      requires Valid()
      modifies this
      ensures Valid() && history == old(history) + [Added(client.id)]
      ensures clients == old(clients)[client.id := client]
      ensures audioBuffers == old(audioBuffers) && clientLastActivity == old(clientLastActivity)
      ensures timerStarts == old(timerStarts) + (if old(clients).Keys <= {client.id} then 1 else 0)
    {
      RoomAfterAdd(history, clients, audioBuffers, clientLastActivity, client);
      hide RoomMatches;
      clients := clients[client.id := client];
      OnlyKey(clients.Keys, client.id);
      if |clients| == 1 { StartMixingTimer(); }
      history := history + [Added(client.id)];
    }

    method RemoveClient(clientId: string)
      requires Valid()
      modifies this
      ensures Valid() && history == old(history) + [Removed(clientId)]
      ensures clients == old(clients) - {clientId} && audioBuffers == old(audioBuffers) - {clientId}
      ensures clientLastActivity == old(clientLastActivity) && timerStarts == old(timerStarts)
    {
      RoomAfterRemove(history, clients, audioBuffers, clientLastActivity, clientId);
      hide RoomMatches;
      clients := clients - {clientId};
      audioBuffers := audioBuffers - {clientId};
      history := history + [Removed(clientId)];
    }

    method GetClient(clientId: string) returns (client: Option<Client>)
      requires Valid()
      ensures client.Some? <==> clientId in Registered(history)
      ensures client.Some? ==> client.value.id == clientId
    {
      client := if clientId in clients then Some(clients[clientId]) else None;
    }

    /** Adds a packet at the back of a buffer, new or not, and takes one from the front of a full one. */
    method PushPacket(senderId: string, packet: Packet)
      requires |BufferOf(audioBuffers, senderId)| <= MAX_BUFFER_SIZE
      modifies this`audioBuffers
      ensures audioBuffers == old(audioBuffers)[senderId := LastOf(BufferOf(old(audioBuffers), senderId) + [packet])]
    {
      audioBuffers := audioBuffers[senderId := BufferOf(audioBuffers, senderId) + [packet]];
      if |audioBuffers[senderId]| > MAX_BUFFER_SIZE {
        audioBuffers := audioBuffers[senderId := audioBuffers[senderId][1..]];
      }
    }

    /** Buffers a packet, of a registered sender or not, and drops the oldest beyond 50. */
    method ProcessAudio(senderId: string, packet: Packet, now: int)
      requires Valid()
      modifies this
      ensures Valid() && history == old(history) + [Audio(senderId, packet, now)]
      ensures audioBuffers == old(audioBuffers)[senderId := LastOf(BufferOf(old(audioBuffers), senderId) + [packet])]
      ensures clientLastActivity == old(clientLastActivity)[senderId := now]
      ensures clients == old(clients) && timerStarts == old(timerStarts)
    {
      BoundedBuffer(history, audioBuffers, senderId);
      RoomAfterAudio(history, clients, audioBuffers, clientLastActivity, Audio(senderId, packet, now));
      hide RoomMatches;
      PushPacket(senderId, packet);
      clientLastActivity := clientLastActivity[senderId := now];
      history := history + [Audio(senderId, packet, now)];
    }

    /** The packets for one client, from the buffers of all others that were active lately. */
    method Gather(clientId: string, now: int) returns (packetsToMix: seq<Packet>, ghost order: seq<string>)
      requires audioBuffers.Keys <= clientLastActivity.Keys
      modifies this`clientLastActivity
      ensures clientLastActivity == old(clientLastActivity) && Enumerates(order, audioBuffers.Keys)
      ensures packetsToMix == Gathered(audioBuffers, clientLastActivity, order, clientId, now)
    {
      packetsToMix, order := [], [];
      var todo := audioBuffers.Keys;
      while todo != {}
        invariant todo <= audioBuffers.Keys && clientLastActivity == old(clientLastActivity)
        invariant Enumerates(order, audioBuffers.Keys - todo)
        invariant packetsToMix == Gathered(audioBuffers, clientLastActivity, order, clientId, now)
      {
        var bufferId :| bufferId in todo;
        var buffer := audioBuffers[bufferId];
        var lastActivity := StampOf(clientLastActivity, bufferId);
        SameStamp(clientLastActivity, bufferId);
        clientLastActivity := clientLastActivity[bufferId := lastActivity];
        GatheredMore(audioBuffers, clientLastActivity, order, bufferId, clientId, now);
        if bufferId != clientId && buffer != [] {
          if now - lastActivity <= ACTIVITY_TIMEOUT { packetsToMix := packetsToMix + buffer; }
        }
        OneMoreKey(order, audioBuffers.Keys, todo, bufferId);
        hide Gathered, Enumerates;
        order := order + [bufferId];
        todo := todo - {bufferId};
      }
    }

    /** Mixes and sends to every client what the others have sent. */
    method SendMixes(now: int) returns (sends: seq<Send>)
      requires audioBuffers.Keys <= clientLastActivity.Keys
      modifies this`clientLastActivity
      ensures clientLastActivity == old(clientLastActivity)
      ensures Delivered(sends, clients.Keys, audioBuffers, clientLastActivity, now)
    {
      sends := [];
      var todo := clients.Keys;
      while todo != {}
        invariant todo <= clients.Keys && clientLastActivity == old(clientLastActivity)
        invariant Delivered(sends, clients.Keys - todo, audioBuffers, clientLastActivity, now)
      {
        var clientId :| clientId in todo;
        var packetsToMix, order := Gather(clientId, now);
        ghost var before, done := sends, clients.Keys - todo;
        if packetsToMix != [] {
          var mixedPacket := Mix(packetsToMix);
          sends := sends + [Send(clientId, mixedPacket)];
        }
        DeliveredMore(before, sends, done, audioBuffers, clientLastActivity, now, clientId, order);
        todo := todo - {clientId};
        assert clients.Keys - todo == done + {clientId};
      }
    }

    /** Empties every buffer. */
    method ClearBuffers()
      modifies this`audioBuffers
      ensures audioBuffers == Emptied(old(audioBuffers))
    {
      var todo := audioBuffers.Keys;
      while todo != {}
        invariant todo <= audioBuffers.Keys == old(audioBuffers).Keys
        invariant forall id :: id in audioBuffers && id !in todo ==> audioBuffers[id] == []
      {
        var bufferId :| bufferId in todo;
        audioBuffers := audioBuffers[bufferId := []];
        todo := todo - {bufferId};
      }
    }

    /** Forgets the clients that have sent nothing for more than five seconds. */
    method ForgetInactive(now: int)
      modifies this`audioBuffers, this`clientLastActivity
      ensures var gone := Inactive(old(clientLastActivity), now);
        audioBuffers == old(audioBuffers) - gone && clientLastActivity == old(clientLastActivity) - gone
    {
      var todo := clientLastActivity.Keys;
      ghost var stamps, buffers, gone := clientLastActivity, audioBuffers, {};
      while todo != {}
        invariant todo <= stamps.Keys && gone == Inactive(stamps, now) - todo
        invariant audioBuffers == buffers - gone && clientLastActivity == stamps - gone
      {
        var clientId :| clientId in todo;
        assert clientId in clientLastActivity;
        todo := todo - {clientId};
        if now - clientLastActivity[clientId] > ACTIVITY_TIMEOUT {
          audioBuffers := audioBuffers - {clientId};
          clientLastActivity := clientLastActivity - {clientId};
          gone := gone + {clientId};
        }
      }
    }

    /** One tick of the mixing timer. */
    method MixAndSendAudio(now: int) returns (sends: seq<Send>)
      requires Valid()
      modifies this
      ensures Valid() && history == old(history) + [Tick(now)]
      ensures Delivered(sends, old(clients).Keys, old(audioBuffers), old(clientLastActivity), now)
      ensures audioBuffers == Emptied(old(audioBuffers)) - Inactive(old(clientLastActivity), now)
      ensures clientLastActivity == old(clientLastActivity) - Inactive(old(clientLastActivity), now)
      ensures forall id :: id in clientLastActivity <==>
        id in old(clientLastActivity) && now - old(clientLastActivity)[id] <= 5_000_000_000
      ensures forall id :: id in audioBuffers <==> id in old(audioBuffers) && id in clientLastActivity
      ensures forall id :: id in audioBuffers ==> audioBuffers[id] == []
      ensures clients == old(clients) && timerStarts == old(timerStarts)
    {
      RoomAfterTick(history, clients, audioBuffers, clientLastActivity, Inactive(clientLastActivity, now), now);
      assert audioBuffers.Keys <= clientLastActivity.Keys;
      StillActive(audioBuffers, clientLastActivity, now);
      hide RoomMatches, Delivered, Emptied, Inactive;
      sends := SendMixes(now);
      ClearBuffers();
      ForgetInactive(now);
      history := history + [Tick(now)];
    }
  }
}
