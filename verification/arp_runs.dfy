/** What address resolution promises over whole histories of an interface. */
module ArpRuns {
  import opened WrappingIntegers
  import opened Options
  import opened Ipv4
  import opened NetworkInterfaces

  /** What can happen to an interface; Drain is its owner sending the frames out. */
  datatype Event =
    | Send(dgram: Datagram, hop: uint32)
    | Recv(frame: Frame)
    | Tick(ms: nat)
    | Drain

  function Apply(i: Interface, e: Event): Interface {
    match e
    case Send(dgram, hop) => i.SendDatagram(dgram, hop)
    case Recv(frame) => i.Receive(frame)
    case Tick(ms) => i.Tick(ms)
    case Drain => i.(framesOut := [])
  }

  /** The frames an event put out. */
  function Emitted(i: Interface, e: Event): seq<Frame> {
    var out := Apply(i, e).framesOut;
    if e.Drain? || |out| < |i.framesOut| then [] else out[|i.framesOut|..]
  }

  function DatagramsIn(frames: seq<Frame>): seq<Datagram> {
    if frames == [] then []
    else (if frames[0].content.IPv4? then [frames[0].content.dgram] else []) + DatagramsIn(frames[1..])
  }

  /** The last announcement of an address, and when it came. */
  datatype Announcement = Announcement(address: EthernetAddress, at: nat)

  /** An interface, the time, who announced itself last as what, since when each address was
      last learned afresh, when it was last asked for, and per hop all datagrams that ever had
      to wait and all that were released. */
  datatype History = History(
    i: Interface,
    now: nat,
    announced: map<uint32, Announcement>,
    learned: map<uint32, nat>,
    asked: map<uint32, nat>,
    waited: map<uint32, seq<Datagram>>,
    released: map<uint32, seq<Datagram>>
  )

  function At(m: map<uint32, seq<Datagram>>, hop: uint32): seq<Datagram> { if hop in m then m[hop] else [] }

  function Step(h: History, e: Event): History {
    var i' := Apply(h.i, e);
    match e
    case Send(dgram, hop) =>
      h.(i := i',
         asked := if h.i.Request(hop) in Emitted(h.i, e) then h.asked[hop := h.now] else h.asked,
         waited := if i'.Queued(hop) != h.i.Queued(hop) then h.waited[hop := At(h.waited, hop) + [dgram]] else h.waited)
    case Recv(frame) =>
      if frame.content.ARP? then
        var arp := frame.content.arp;
        h.(i := i',
           announced := h.announced[arp.senderIp := Announcement(arp.senderEthernet, h.now)],
           learned := if arp.senderIp in h.i.cache then h.learned else h.learned[arp.senderIp := h.now],
           released := h.released[arp.senderIp := At(h.released, arp.senderIp) + DatagramsIn(Emitted(h.i, e))])
      else h.(i := i')
    case Tick(ms) => h.(i := i', now := h.now + ms)
    case Drain => h.(i := i')
  }

  function Run(h: History, events: seq<Event>): History
    decreases |events|
  {
    if events == [] then h else Run(Step(h, events[0]), events[1..])
  }

  function Start(ethernet: EthernetAddress, ip: uint32): History {
    History(Interface(ethernet, ip, [], map[], map[], map[]), 0, map[], map[], map[], map[], map[])
  }

  // ----- Waiting datagrams -----

  /** No hop has both a cached address and waiting datagrams, and what ever waited for a hop
      is what was released, followed by what still waits, in order. */
  ghost predicate Orderly(h: History) {
    && h.i.cache.Keys !! h.i.queue.Keys
    && forall hop: uint32 :: At(h.waited, hop) == At(h.released, hop) + h.i.Queued(hop)
  }

  lemma {:induction false} DatagramsInFrames(dgrams: seq<Datagram>, dst: EthernetAddress, src: EthernetAddress)
    ensures DatagramsIn(FramesFor(dgrams, dst, src)) == dgrams
    ensures forall f :: f in FramesFor(dgrams, dst, src) ==> f.dst == dst
  {
    if dgrams != [] {
      DatagramsInFrames(dgrams[1..], dst, src);
      assert FramesFor(dgrams, dst, src)[1..] == FramesFor(dgrams[1..], dst, src);
    }
  }

  lemma {:induction false} DatagramsInConcat(a: seq<Frame>, b: seq<Frame>)
    ensures DatagramsIn(a + b) == DatagramsIn(a) + DatagramsIn(b)
  {
    if a == [] {
      assert a + b == b;
    } else {
      assert (a + b)[1..] == a[1..] + b;
      DatagramsInConcat(a[1..], b);
      var first := if a[0].content.IPv4? then [a[0].content.dgram] else [];
      assert DatagramsIn(a) == first + DatagramsIn(a[1..]);
      assert first + (DatagramsIn(a[1..]) + DatagramsIn(b)) == first + DatagramsIn(a[1..]) + DatagramsIn(b);
    }
  }

  lemma FlushEmits(i: Interface, arp: ArpMessage)
    ensures i.Learn(arp).Flush(arp.senderIp, arp.senderEthernet).framesOut ==
            i.framesOut + FramesFor(i.Queued(arp.senderIp), arp.senderEthernet, i.ethernet)
  {
  }

  lemma ReplyEmits(i: Interface, frame: Frame, arp: ArpMessage) returns (reply: seq<Frame>)
    ensures i.Reply(frame, arp) == i.(framesOut := i.framesOut + reply)
    ensures DatagramsIn(reply) == [] && forall f :: f in reply ==> f.dst == arp.senderEthernet
  {
    reply := i.Reply(frame, arp).framesOut[|i.framesOut|..];
  }

  /** An announcement releases all that waits for the announcer, once and in order, to the
      address announced, and nothing else. */
  lemma AnnouncementReleases(i: Interface, frame: Frame)
    requires frame.content.ARP?
    ensures var arp := frame.content.arp;
            && DatagramsIn(Emitted(i, Recv(frame))) == i.Queued(arp.senderIp)
            && (forall f :: f in Emitted(i, Recv(frame)) ==> f.dst == arp.senderEthernet)
            && i.Receive(frame).queue == i.queue - {arp.senderIp}
            && i.Receive(frame).cache.Keys == i.cache.Keys + {arp.senderIp}
  {
    hide DatagramsIn, FramesFor;
    var arp := frame.content.arp;
    var sent := FramesFor(i.Queued(arp.senderIp), arp.senderEthernet, i.ethernet);
    DatagramsInFrames(i.Queued(arp.senderIp), arp.senderEthernet, i.ethernet);
    FlushEmits(i, arp);
    var reply := ReplyEmits(i.Learn(arp).Flush(arp.senderIp, arp.senderEthernet), frame, arp);
    assert Emitted(i, Recv(frame)) == sent + reply;
    DatagramsInConcat(sent, reply);
  }

  lemma {:induction false} FramesForNth(dgrams: seq<Datagram>, dst: EthernetAddress, src: EthernetAddress)
    ensures var frames := FramesFor(dgrams, dst, src);
            |frames| == |dgrams| && forall k :: 0 <= k < |dgrams| ==> frames[k] == Frame(dst, src, IPv4(dgrams[k]))
  {
    if dgrams != [] {
      FramesForNth(dgrams[1..], dst, src);
    }
  }

  /** The frame is a broadcast request for this interface's own address. */
  predicate AsksFor(i: Interface, frame: Frame) {
    && frame.content.ARP? && frame.dst == BROADCAST
    && frame.content.arp.opcode == OPCODE_REQUEST && frame.content.arp.targetIp == i.ip
  }

  /** What an arriving frame makes an interface do.  An ARP message puts out the datagrams that
      waited for its sender, in order and to its sender, followed by a reply to it exactly when
      it is a broadcast request for the interface's own address; it teaches the cache its
      sender's address and nothing else.  Any other frame changes nothing, and only a datagram
      in a frame addressed to the interface itself is handed up. */
  lemma FrameEffect(i: Interface, frame: Frame)
    ensures i.Delivered(frame) ==
            if frame.content.IPv4? && frame.dst == i.ethernet then Some(frame.content.dgram) else None
    ensures !frame.content.ARP? ==> i.Receive(frame) == i
    ensures frame.content.ARP? ==>
              var arp, out := frame.content.arp, Emitted(i, Recv(frame));
              var waiting, i' := i.Queued(arp.senderIp), i.Receive(frame);
              && i'.framesOut == i.framesOut + out
              && |out| == |waiting| + (if AsksFor(i, frame) then 1 else 0)
              && (forall k :: 0 <= k < |waiting| ==>
                    out[k] == Frame(arp.senderEthernet, i.ethernet, IPv4(waiting[k])))
              && (AsksFor(i, frame) ==>
                    out[|waiting|] == Frame(arp.senderEthernet, i.ethernet,
                      ARP(ArpMessage(OPCODE_REPLY, i.ethernet, i.ip, arp.senderEthernet, arp.senderIp))))
              && i'.timers == i.timers && i'.ethernet == i.ethernet && i'.ip == i.ip
              && arp.senderIp in i'.cache && i'.cache[arp.senderIp].address == arp.senderEthernet
              && (forall hop :: hop in i.cache && hop != arp.senderIp ==>
                    hop in i'.cache && i'.cache[hop] == i.cache[hop])
  {
    if frame.content.ARP? {
      var arp := frame.content.arp;
      FramesForNth(i.Queued(arp.senderIp), arp.senderEthernet, i.ethernet);
      hide FramesFor;
      FlushEmits(i, arp);
      var _ := ReplyEmits(i.Learn(arp).Flush(arp.senderIp, arp.senderEthernet), frame, arp);
    }
  }

  lemma AnnouncementOrderly(h: History, frame: Frame)
    requires Orderly(h) && frame.content.ARP?
    ensures Orderly(Step(h, Recv(frame)))
  {
    AnnouncementReleases(h.i, frame);
    hide Interface.Receive, Emitted;
    var h' := Step(h, Recv(frame));
    var arp := frame.content.arp;
    forall hop: uint32 ensures At(h'.waited, hop) == At(h'.released, hop) + h'.i.Queued(hop) {
      assert At(h.waited, hop) == At(h.released, hop) + h.i.Queued(hop);
      if hop == arp.senderIp {
        assert h'.i.Queued(hop) == [];
      }
    }
  }

  lemma SendOrderly(h: History, dgram: Datagram, hop: uint32)
    requires Orderly(h)
    ensures Orderly(Step(h, Send(dgram, hop)))
  {
    hide Emitted;
    var h' := Step(h, Send(dgram, hop));
    forall k: uint32 ensures At(h'.waited, k) == At(h'.released, k) + h'.i.Queued(k) {
      assert At(h.waited, k) == At(h.released, k) + h.i.Queued(k);
      if k == hop && hop !in h.i.cache && hop !in h.i.timers {
        assert h'.i.Queued(hop) == h.i.Queued(hop) + [dgram];
        assert |h'.i.Queued(hop)| != |h.i.Queued(hop)|;
      }
    }
  }

  lemma StepOrderly(h: History, e: Event)
    requires Orderly(h)
    ensures Orderly(Step(h, e))
  {
    hide Emitted;
    match e
    case Send(dgram, hop) => SendOrderly(h, dgram, hop);
    case Recv(frame) =>
      if frame.content.ARP? {
        AnnouncementOrderly(h, frame);
      }
    case Tick(ms) =>
      assert Step(h, e).i.queue == h.i.queue && Step(h, e).i.cache.Keys <= h.i.cache.Keys;
      assert forall k: uint32 :: Step(h, e).i.Queued(k) == h.i.Queued(k);
    case Drain =>
      assert forall k: uint32 :: Step(h, e).i.Queued(k) == h.i.Queued(k);
  }

  /** Over every history, waiting datagrams leave once and in order, when their hop announces
      itself, and a hop never has both waiting datagrams and a cached address. */
  lemma {:induction false} RunOrderly(h: History, events: seq<Event>)
    requires Orderly(h)
    ensures Orderly(Run(h, events))
    decreases |events|
  {
    hide Orderly, Step;
    if events != [] {
      StepOrderly(h, events[0]);
      RunOrderly(Step(h, events[0]), events[1..]);
    }
  }

  // ----- Requests -----

  /** The request timers never run ahead of the time, and a missing timer means the last
      request is more than 5000 ms old. */
  ghost predicate Spaced(h: History) {
    && h.i.timers.Keys <= h.asked.Keys
    && (forall hop :: hop in h.asked ==> h.asked[hop] <= h.now)
    && (forall hop :: hop in h.i.timers ==> h.i.timers[hop] <= h.now - h.asked[hop])
    && (forall hop :: hop in h.asked && hop !in h.i.timers ==> h.now - h.asked[hop] > RESEND_ARP_MESSAGE_TIME)
  }

  lemma SendEmits(i: Interface, dgram: Datagram, hop: uint32)
    ensures i.Request(hop) in Emitted(i, Send(dgram, hop)) <==> hop !in i.cache && hop !in i.timers
    ensures hop in i.cache ==>
              Emitted(i, Send(dgram, hop)) == [Frame(i.cache[hop].address, i.ethernet, IPv4(dgram))]
  {
  }

  lemma StepSpaced(h: History, e: Event)
    requires Spaced(h)
    ensures Spaced(Step(h, e))
  {
    match e
    case Send(dgram, hop) =>
      SendEmits(h.i, dgram, hop);
      hide Emitted;
    case Tick(ms) =>
      hide Emitted;
      assert forall hop :: hop in h.i.timers ==> Aged(h.i.timers[hop], ms) <= h.i.timers[hop] + ms;
    case _ => hide Emitted;
  }

  lemma {:induction false} RunSpaced(h: History, events: seq<Event>)
    requires Spaced(h)
    ensures Spaced(Run(h, events))
    decreases |events|
  {
    hide Spaced, Step;
    if events != [] {
      StepSpaced(h, events[0]);
      RunSpaced(Step(h, events[0]), events[1..]);
    }
  }

  /** Over every history, whatever the ticks, an address is asked for again only more than
      5000 ms after it was last asked for. */
  lemma RequestsAreSpaced(ethernet: EthernetAddress, ip: uint32, events: seq<Event>, dgram: Datagram, hop: uint32)
    ensures var h := Run(Start(ethernet, ip), events);
            h.i.Request(hop) in Emitted(h.i, Send(dgram, hop)) ==>
              hop !in h.asked || h.now - h.asked[hop] > RESEND_ARP_MESSAGE_TIME
  {
    RunSpaced(Start(ethernet, ip), events);
    var h := Run(Start(ethernet, ip), events);
    SendEmits(h.i, dgram, hop);
    hide Emitted, Run;
  }

  /** The 16-bit request timers cannot be fooled by this tick. */
  predicate SafeForTimers(ms: nat) {
    ms <= 60535 || RESEND_ARP_MESSAGE_TIME < ms % TWO16 <= 60535
  }

  /** Exactly the other ticks wrap some running timer around. */
  lemma SafeForTimersIff(ms: nat)
    ensures SafeForTimers(ms) <==>
            forall timer: uint16 :: timer <= RESEND_ARP_MESSAGE_TIME ==>
              (Aged(timer, ms) <= RESEND_ARP_MESSAGE_TIME <==> timer + ms <= RESEND_ARP_MESSAGE_TIME)
  {
    if !SafeForTimers(ms) {
      var timer: uint16 := WrappedTimer(ms);
      assert timer <= RESEND_ARP_MESSAGE_TIME && Aged(timer, ms) <= RESEND_ARP_MESSAGE_TIME;
    }
  }

  function WrappedTimer(ms: nat): uint16 { if ms % TWO16 > 60535 then TWO16 - ms % TWO16 else 0 }

  /** The timers are exactly the requests of the last 5000 ms, each with its age. */
  ghost predicate TimersExact(h: History) {
    && (forall hop :: hop in h.asked ==> h.asked[hop] <= h.now)
    && (forall hop :: hop in h.i.timers <==> hop in h.asked && h.now - h.asked[hop] <= RESEND_ARP_MESSAGE_TIME)
    && (forall hop :: hop in h.i.timers ==> h.i.timers[hop] == h.now - h.asked[hop])
  }

  lemma TickTimersExact(h: History, ms: nat)
    requires TimersExact(h) && SafeForTimers(ms)
    ensures TimersExact(Step(h, Tick(ms)))
  {
    hide Emitted, Aged;
    SafeForTimersIff(ms);
    var h' := Step(h, Tick(ms));
    forall hop | hop in h.i.timers
      ensures Aged(h.i.timers[hop], ms) <= RESEND_ARP_MESSAGE_TIME <==> h.i.timers[hop] + ms <= RESEND_ARP_MESSAGE_TIME
      ensures h.i.timers[hop] + ms <= RESEND_ARP_MESSAGE_TIME ==> Aged(h.i.timers[hop], ms) == h.i.timers[hop] + ms
    {
      SmallAge(h.i.timers[hop], ms);
    }
    assert h'.asked == h.asked && h'.now == h.now + ms;
  }

  lemma StepTimersExact(h: History, e: Event)
    requires TimersExact(h) && (e.Tick? ==> SafeForTimers(e.ms))
    ensures TimersExact(Step(h, e))
  {
    match e
    case Send(dgram, hop) =>
      SendEmits(h.i, dgram, hop);
      hide Emitted;
    case Tick(ms) => TickTimersExact(h, ms);
    case _ => hide Emitted;
  }

  lemma {:induction false} RunTimersExact(h: History, events: seq<Event>)
    requires TimersExact(h) && forall e :: e in events && e.Tick? ==> SafeForTimers(e.ms)
    ensures TimersExact(Run(h, events))
    decreases |events|
  {
    hide TimersExact, Step;
    if events != [] {
      assert events[0] in events;
      StepTimersExact(h, events[0]);
      RunTimersExact(Step(h, events[0]), events[1..]);
    }
  }

  /** Over every history of ticks that do not wrap a timer: a datagram for an address that is
      not cached makes the interface ask for the address and keep the datagram if and only if
      it did not ask in the last 5000 ms; otherwise the datagram is dropped and nothing else
      happens. */
  lemma AsksIff(ethernet: EthernetAddress, ip: uint32, events: seq<Event>, dgram: Datagram, hop: uint32)
    requires forall e :: e in events && e.Tick? ==> SafeForTimers(e.ms)
    ensures var h := Run(Start(ethernet, ip), events);
            var i' := Apply(h.i, Send(dgram, hop));
            hop !in h.i.cache ==>
              if hop !in h.asked || h.now - h.asked[hop] > RESEND_ARP_MESSAGE_TIME then
                && i'.framesOut == h.i.framesOut +
                     [Frame(BROADCAST, h.i.ethernet, ARP(ArpMessage(OPCODE_REQUEST, h.i.ethernet, h.i.ip, 0, hop)))]
                && i'.Queued(hop) == h.i.Queued(hop) + [dgram]
                && i'.cache == h.i.cache && i'.queue - {hop} == h.i.queue - {hop}
              else i' == h.i
  {
    RunTimersExact(Start(ethernet, ip), events);
    hide Run;
  }

  /** Every tick that wraps a timer does harm in some history: the address was asked for more
      than 5000 ms ago, and yet a datagram for it is dropped. */
  lemma UnsafeForTimersHarms(ethernet: EthernetAddress, ip: uint32, dgram: Datagram, hop: uint32, ms: nat)
    requires !SafeForTimers(ms)
    ensures SafeForTimers(WrappedTimer(ms))
    ensures var h := Run(Start(ethernet, ip), [Send(dgram, hop), Tick(WrappedTimer(ms)), Tick(ms)]);
            && hop !in h.i.cache && hop in h.asked && h.now - h.asked[hop] > RESEND_ARP_MESSAGE_TIME
            && Apply(h.i, Send(dgram, hop)) == h.i
  {
    var timer := WrappedTimer(ms);
    assert timer <= RESEND_ARP_MESSAGE_TIME && Aged(timer, ms) <= RESEND_ARP_MESSAGE_TIME;
    var h0 := Start(ethernet, ip);
    SendEmits(h0.i, dgram, hop);
    hide Emitted;
    var h1 := Step(h0, Send(dgram, hop));
    assert h1.i.timers[hop] == 0;
    SmallAge(0, timer);
    var h2 := Step(h1, Tick(timer));
    assert h2.i.timers[hop] == timer;
    hide Aged;
    var h3 := Step(h2, Tick(ms));
    assert Run(h2, [Tick(ms)]) == Run(h3, []) == h3;
    assert [Tick(timer), Tick(ms)][1..] == [Tick(ms)];
    assert [Send(dgram, hop), Tick(timer), Tick(ms)][1..] == [Tick(timer), Tick(ms)];
  }

  // ----- The cache -----

  /** The 16-bit ages cannot be fooled by this tick. */
  predicate SafeTick(ms: nat) {
    ms <= 35535 || MAX_ETHERNET_CACHE_TIME < ms % TWO16 <= 35535
  }

  /** An entry of age `age` that survives `ms` more although it is then too old. */
  predicate SurvivesStale(age: uint16, ms: nat) {
    age + ms > MAX_ETHERNET_CACHE_TIME && Aged(age, ms) <= MAX_ETHERNET_CACHE_TIME
  }

  /** The age that an unsafe tick wraps around. */
  function WrappedAge(ms: nat): uint16 {
    if ms % TWO16 > MAX_ETHERNET_CACHE_TIME then TWO16 - ms % TWO16 else 0
  }

  /** Exactly the other ticks wrap some entry's age around and keep it beyond its time. */
  lemma SafeTickIff(ms: nat)
    ensures SafeTick(ms) <==>
            forall age: uint16 :: age <= MAX_ETHERNET_CACHE_TIME ==> !SurvivesStale(age, ms)
  {
    if !SafeTick(ms) {
      assert SurvivesStale(WrappedAge(ms), ms);
    }
  }

  /** Every cached address is the one its hop announced last, and the announcement is no
      older than the entry's age. */
  ghost predicate Current(h: History) {
    forall hop :: hop in h.i.cache ==>
      && hop in h.announced
      && h.i.cache[hop].address == h.announced[hop].address
      && 0 <= h.now - h.announced[hop].at <= h.i.cache[hop].age <= MAX_ETHERNET_CACHE_TIME
  }

  /** Every unsafe tick does harm in some history: a host announces itself and is heard no
      more, one safe tick passes, and after the unsafe one it is cached beyond its time. */
  lemma UnsafeTickHarms(ethernet: EthernetAddress, ip: uint32, peer: EthernetAddress, hop: uint32, ms: nat)
    requires !SafeTick(ms)
    ensures SafeTick(WrappedAge(ms))
    ensures var frame := Frame(BROADCAST, peer, ARP(ArpMessage(OPCODE_REPLY, peer, hop, 0, 0)));
            var h := Run(Start(ethernet, ip), [Recv(frame), Tick(WrappedAge(ms)), Tick(ms)]);
            hop in h.i.cache && hop in h.announced && h.now - h.announced[hop].at > MAX_ETHERNET_CACHE_TIME
  {
    hide Emitted;
    var age := WrappedAge(ms);
    assert SurvivesStale(age, ms) && age <= MAX_ETHERNET_CACHE_TIME;
    var frame := Frame(BROADCAST, peer, ARP(ArpMessage(OPCODE_REPLY, peer, hop, 0, 0)));
    var h0 := Start(ethernet, ip);
    var h1 := Step(h0, Recv(frame));
    assert h1.i.cache[hop] == CachedAddress(peer, 0);
    SmallAge(0, age);
    var h2 := Step(h1, Tick(age));
    assert h2.i.cache[hop] == CachedAddress(peer, age);
    hide Aged;
    var h3 := Step(h2, Tick(ms));
    assert Run(h2, [Tick(ms)]) == Run(h3, []) == h3;
    assert [Tick(age), Tick(ms)][1..] == [Tick(ms)];
    assert [Recv(frame), Tick(age), Tick(ms)][1..] == [Tick(age), Tick(ms)];
  }

  /** The cache holds exactly the addresses learned afresh in the last 30000 ms, each with its
      age: hearing a host again does not make its entry younger. */
  ghost predicate CacheExact(h: History) {
    && (forall hop :: hop in h.learned ==> h.learned[hop] <= h.now)
    && (forall hop :: hop in h.i.cache <==> hop in h.learned && h.now - h.learned[hop] <= MAX_ETHERNET_CACHE_TIME)
    && (forall hop :: hop in h.i.cache ==> h.i.cache[hop].age == h.now - h.learned[hop])
  }

  lemma TickCacheExact(h: History, ms: nat)
    requires CacheExact(h) && SafeTick(ms)
    ensures CacheExact(Step(h, Tick(ms)))
  {
    hide Emitted, Aged;
    SafeTickIff(ms);
    var h' := Step(h, Tick(ms));
    forall hop | hop in h.i.cache
      ensures var age := h.i.cache[hop].age;
              && (Aged(age, ms) <= MAX_ETHERNET_CACHE_TIME <==> age + ms <= MAX_ETHERNET_CACHE_TIME)
              && (age + ms <= MAX_ETHERNET_CACHE_TIME ==> Aged(age, ms) == age + ms)
    {
      assert !SurvivesStale(h.i.cache[hop].age, ms);
      SmallAge(h.i.cache[hop].age, ms);
    }
    assert h'.learned == h.learned && h'.now == h.now + ms;
  }

  lemma StepCacheExact(h: History, e: Event)
    requires CacheExact(h) && (e.Tick? ==> SafeTick(e.ms))
    ensures CacheExact(Step(h, e))
  {
    hide Emitted, DatagramsIn, FramesFor;
    match e
    case Tick(ms) => TickCacheExact(h, ms);
    case Recv(frame) =>
      if frame.content.ARP? {
        LearnedFrame(h, frame);
        hide Step;
      }
    case Send(dgram, hop) =>
      SendFrame(h, dgram, hop);
      hide Step;
    case Drain =>
  }

  lemma LearnedFrame(h: History, frame: Frame)
    requires frame.content.ARP?
    ensures var h', ip := Step(h, Recv(frame)), frame.content.arp.senderIp;
            && h'.now == h.now && h'.i.cache.Keys == h.i.cache.Keys + {ip}
            && (forall hop :: hop in h.i.cache ==> h'.i.cache[hop].age == h.i.cache[hop].age)
            && (ip in h.i.cache ==> h'.learned == h.learned)
            && (ip !in h.i.cache ==> h'.learned == h.learned[ip := h.now] && h'.i.cache[ip].age == 0)
  {
    hide Emitted, DatagramsIn, FramesFor;
    assert Step(h, Recv(frame)).i.cache == h.i.Learn(frame.content.arp).cache;
  }

  lemma SendFrame(h: History, dgram: Datagram, hop: uint32)
    ensures var h' := Step(h, Send(dgram, hop)); h'.i.cache == h.i.cache && h'.now == h.now && h'.learned == h.learned
  {
    hide Emitted;
  }

  /** Over every history of safe ticks. */
  lemma {:induction false} CacheIsExact(h: History, events: seq<Event>)
    requires CacheExact(h) && forall e :: e in events && e.Tick? ==> SafeTick(e.ms)
    ensures CacheExact(Run(h, events))
    decreases |events|
  {
    hide CacheExact, Step, SafeTick;
    if events != [] {
      assert events[0] in events;
      StepCacheExact(h, events[0]);
      CacheIsExact(Step(h, events[0]), events[1..]);
    }
  }

  lemma TickCurrent(h: History, ms: nat)
    requires Current(h) && SafeTick(ms)
    ensures Current(Step(h, Tick(ms)))
  {
    hide Emitted, Aged;
    SafeTickIff(ms);
    var h' := Step(h, Tick(ms));
    forall hop | hop in h'.i.cache
      ensures hop in h'.announced && h'.i.cache[hop].address == h'.announced[hop].address
      ensures 0 <= h'.now - h'.announced[hop].at <= h'.i.cache[hop].age <= MAX_ETHERNET_CACHE_TIME
    {
      assert !SurvivesStale(h.i.cache[hop].age, ms);
      SmallAge(h.i.cache[hop].age, ms);
    }
  }

  lemma SmallAge(age: uint16, ms: nat)
    ensures age + ms < TWO16 ==> Aged(age, ms) == age + ms
  {
  }

  lemma AnnouncementCurrent(h: History, frame: Frame)
    requires Current(h) && frame.content.ARP?
    ensures Current(Step(h, Recv(frame)))
  {
    hide Emitted, DatagramsIn, FramesFor;
    var arp := frame.content.arp;
    assert Step(h, Recv(frame)).i.cache == h.i.Learn(arp).cache;
  }

  lemma StepCurrent(h: History, e: Event)
    requires Current(h) && (e.Tick? ==> SafeTick(e.ms))
    ensures Current(Step(h, e))
  {
    hide Emitted;
    match e
    case Tick(ms) => TickCurrent(h, ms);
    case Recv(frame) =>
      if frame.content.ARP? {
        AnnouncementCurrent(h, frame);
      }
    case Send(dgram, hop) => assert Step(h, e).i.cache == h.i.cache;
    case Drain =>
  }

  lemma {:induction false} RunCurrent(h: History, events: seq<Event>)
    requires Current(h) && forall e :: e in events && e.Tick? ==> SafeTick(e.ms)
    ensures Current(Run(h, events))
    decreases |events|
  {
    hide Current, Step;
    if events != [] {
      assert events[0] in events;
      StepCurrent(h, events[0]);
      RunCurrent(Step(h, events[0]), events[1..]);
    }
  }

  /** Over every history of safe ticks, a datagram sent from the cache goes to the address
      its hop announced last, at most 30000 ms ago. */
  lemma CacheIsCurrent(ethernet: EthernetAddress, ip: uint32, events: seq<Event>, dgram: Datagram, hop: uint32)
    requires forall e :: e in events && e.Tick? ==> SafeTick(e.ms)
    ensures var h := Run(Start(ethernet, ip), events);
            hop in h.i.cache ==>
              && hop in h.announced && h.now - h.announced[hop].at <= MAX_ETHERNET_CACHE_TIME
              && Emitted(h.i, Send(dgram, hop)) == [Frame(h.announced[hop].address, h.i.ethernet, IPv4(dgram))]
  {
    RunCurrent(Start(ethernet, ip), events);
    var h := Run(Start(ethernet, ip), events);
    SendEmits(h.i, dgram, hop);
    hide Emitted, Run;
  }

  // ----- Two interfaces together -----

  /** Resolution works end to end: the request one interface broadcasts makes the other
      answer, and the answer makes the first release the datagram to the second, which
      hands it up. */
  lemma ResolutionDelivers(a: Interface, b: Interface, dgram: Datagram)
    requires b.ip !in a.cache && b.ip !in a.timers && b.ip !in a.queue
    ensures var a1 := a.SendDatagram(dgram, b.ip);
            && a1.framesOut == a.framesOut + [a.Request(b.ip)]
            && var b1 := b.Receive(a.Request(b.ip));
               && |b1.framesOut| > |b.framesOut|
               && a.ip in b1.cache && b1.cache[a.ip].address == a.ethernet
               && var answer := b1.framesOut[|b1.framesOut| - 1];
                  && answer.dst == a.ethernet
                  && DatagramsIn(Emitted(a1, Recv(answer))) == [dgram]
                  && forall f :: f in Emitted(a1, Recv(answer)) && f.content.IPv4? ==> b.Delivered(f) == Some(dgram)
  {
    hide DatagramsIn, FramesFor;
    var a1 := a.SendDatagram(dgram, b.ip);
    var request := a.Request(b.ip);
    var b1 := b.Receive(request);
    var answer := b1.framesOut[|b1.framesOut| - 1];
    assert answer.content.ARP?;
    assert answer.content.arp.senderIp == b.ip && answer.content.arp.senderEthernet == b.ethernet;
    assert a1.Queued(b.ip) == [dgram];
    AnnouncementReleases(a1, answer);
    var out := Emitted(a1, Recv(answer));
    hide Interface.Receive, Emitted, Interface.SendDatagram;
    forall f | f in out && f.content.IPv4? ensures b.Delivered(f) == Some(dgram) {
      DatagramIsIn(out, f);
    }
  }

  lemma {:induction false} DatagramIsIn(frames: seq<Frame>, f: Frame)
    requires f in frames && f.content.IPv4?
    ensures f.content.dgram in DatagramsIn(frames)
  {
    if f != frames[0] {
      DatagramIsIn(frames[1..], f);
    }
  }
}
