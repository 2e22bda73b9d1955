/** The network interface with its ARP cache (libsponge/network_interface.hh and
    libsponge/network_interface.cc).  Frames are modelled with their payload already parsed. */
module NetworkInterfaces {
  import opened WrappingIntegers
  import opened Options
  import opened Ipv4

  const RESEND_ARP_MESSAGE_TIME: nat := 5000
  const MAX_ETHERNET_CACHE_TIME: nat := 30000
  const OPCODE_REQUEST: uint16 := 1
  const OPCODE_REPLY: uint16 := 2

  type EthernetAddress = n: nat | n < 0x1_0000_0000_0000
  const BROADCAST: EthernetAddress := 0xFFFF_FFFF_FFFF

  datatype ArpMessage = ArpMessage(
    opcode: uint16,
    senderEthernet: EthernetAddress,
    senderIp: uint32,
    targetEthernet: EthernetAddress,
    targetIp: uint32
  )

  /** What a frame carries; Malformed stands for a payload that does not parse. */
  datatype Content = IPv4(dgram: Datagram) | ARP(arp: ArpMessage) | Malformed | OtherType

  datatype Frame = Frame(dst: EthernetAddress, src: EthernetAddress, content: Content)

  datatype CachedAddress = CachedAddress(address: EthernetAddress, age: uint16)

  function FramesFor(dgrams: seq<Datagram>, dst: EthernetAddress, src: EthernetAddress): seq<Frame> {
    if dgrams == [] then [] else [Frame(dst, src, IPv4(dgrams[0]))] + FramesFor(dgrams[1..], dst, src)
  }

  /** A 16-bit timer after `ms` more milliseconds. */
  function Aged(timer: uint16, ms: nat): uint16 { Mod16(timer + ms) }

  datatype Interface = Interface(
    ethernet: EthernetAddress,
    ip: uint32,
    framesOut: seq<Frame>,
    cache: map<uint32, CachedAddress>,
    queue: map<uint32, seq<Datagram>>,
    timers: map<uint32, uint16>
  ) {
    function Queued(hop: uint32): seq<Datagram> { if hop in queue then queue[hop] else [] }

    function Push(frame: Frame): Interface { this.(framesOut := framesOut + [frame]) }

    function Request(hop: uint32): Frame {
      Frame(BROADCAST, ethernet, ARP(ArpMessage(OPCODE_REQUEST, ethernet, ip, 0, hop)))
    }

    function SendDatagram(dgram: Datagram, hop: uint32): Interface {
      if hop in cache then Push(Frame(cache[hop].address, ethernet, IPv4(dgram)))
      else if hop !in timers then
        Push(Request(hop)).(queue := queue[hop := Queued(hop) + [dgram]], timers := timers[hop := 0])
      else this
    }

    /** Remembers who announced itself; a known entry keeps its age. */
    function Learn(arp: ArpMessage): Interface {
      var age := if arp.senderIp in cache then cache[arp.senderIp].age else 0;
      this.(cache := cache[arp.senderIp := CachedAddress(arp.senderEthernet, age)])
    }

    /** Sends what waited for `hop`. */
    function Flush(hop: uint32, address: EthernetAddress): Interface {
      if hop in queue then
        this.(framesOut := framesOut + FramesFor(queue[hop], address, ethernet), queue := queue - {hop})
      else this
    }

    function Reply(frame: Frame, arp: ArpMessage): Interface {
      if frame.dst == BROADCAST && arp.opcode == OPCODE_REQUEST && arp.targetIp == ip then
        Push(Frame(arp.senderEthernet, ethernet,
                   ARP(ArpMessage(OPCODE_REPLY, ethernet, ip, arp.senderEthernet, arp.senderIp))))
      else this
    }

    function Receive(frame: Frame): Interface {
      match frame.content
      case ARP(arp) => Learn(arp).Flush(arp.senderIp, arp.senderEthernet).Reply(frame, arp)
      case _ => this
    }

    /** The datagram handed up by Receive. */
    function Delivered(frame: Frame): Option<Datagram> {
      if frame.content.IPv4? && frame.dst == ethernet then Some(frame.content.dgram) else None
    }

    function Tick(ms: nat): Interface {
      this.(timers := map hop | hop in timers && Aged(timers[hop], ms) <= RESEND_ARP_MESSAGE_TIME
                        :: Aged(timers[hop], ms),
            cache := map hop | hop in cache && Aged(cache[hop].age, ms) <= MAX_ETHERNET_CACHE_TIME
                       :: cache[hop].(age := Aged(cache[hop].age, ms)))
    }
  }

  class NetworkInterface {
    const ethernet: EthernetAddress
    const ip: uint32
    var framesOut: seq<Frame>
    var cache: map<uint32, CachedAddress>
    var queue: map<uint32, seq<Datagram>>
    var timers: map<uint32, uint16>

    function View(): Interface
      reads this
    {
      Interface(ethernet, ip, framesOut, cache, queue, timers)
    }

    constructor (ethernet: EthernetAddress, ip: uint32)
      ensures View() == Interface(ethernet, ip, [], map[], map[], map[])
    {
      this.ethernet := ethernet;
      this.ip := ip;
      framesOut, cache, queue, timers := [], map[], map[], map[];
    }

    method SendTo(dgram: Datagram, address: EthernetAddress)
      modifies this`framesOut
      ensures framesOut == old(framesOut) + [Frame(address, ethernet, IPv4(dgram))]
    {
      framesOut := framesOut + [Frame(address, ethernet, IPv4(dgram))];
    }

    method SendDatagram(dgram: Datagram, hop: uint32)
      modifies this
      ensures View() == old(View()).SendDatagram(dgram, hop)
    {
      if hop in cache {
        SendTo(dgram, cache[hop].address);
      } else if hop !in timers {
        var arp := ArpMessage(OPCODE_REQUEST, ethernet, ip, 0, hop);
        framesOut := framesOut + [Frame(BROADCAST, ethernet, ARP(arp))];
        var waiting := if hop in queue then queue[hop] else [];
        queue := queue[hop := waiting + [dgram]];
        timers := timers[hop := 0];
      }
    }

    /** The loop that sends the datagrams waiting for an address. */
    method SendWaiting(hop: uint32, address: EthernetAddress)
      modifies this
      ensures View() == old(View()).Flush(hop, address)
    {
      if hop in queue {
        var dgrams := queue[hop];
        while |dgrams| > 0
          invariant framesOut + FramesFor(dgrams, address, ethernet) ==
                    old(framesOut) + FramesFor(old(queue)[hop], address, ethernet)
          invariant queue == old(queue) && cache == old(cache) && timers == old(timers)
          decreases |dgrams|
        {
          SendTo(dgrams[0], address);
          dgrams := dgrams[1..];
        }
        queue := queue - {hop};
      }
    }

    method ReceiveFrame(frame: Frame) returns (r: Option<Datagram>)
      modifies this
      ensures View() == old(View()).Receive(frame)
      ensures r == old(View()).Delivered(frame)
    {
      r := None;
      if frame.content.IPv4? {
        if frame.dst == ethernet {
          r := Some(frame.content.dgram);
        }
      } else if frame.content.ARP? {
        var arp := frame.content.arp;
        var age := if arp.senderIp in cache then cache[arp.senderIp].age else 0;
        cache := cache[arp.senderIp := CachedAddress(arp.senderEthernet, age)];
        SendWaiting(arp.senderIp, arp.senderEthernet);
        if frame.dst == BROADCAST && arp.opcode == OPCODE_REQUEST && arp.targetIp == ip {
          var reply := ArpMessage(OPCODE_REPLY, ethernet, ip, arp.senderEthernet, arp.senderIp);
          framesOut := framesOut + [Frame(arp.senderEthernet, ethernet, ARP(reply))];
        }
      }
    }

    /** The first loop of tick: requests that may be sent again. */
    method AgeTimers(ms: nat)
      modifies this`timers
      ensures timers == old(View()).Tick(ms).timers
    {
      var rest := timers.Keys;
      while rest != {}
        invariant rest <= timers.Keys
        invariant forall hop :: hop in timers <==>
                    hop in old(timers) && (hop in rest || Aged(old(timers)[hop], ms) <= RESEND_ARP_MESSAGE_TIME)
        invariant forall hop :: hop in timers ==>
                    timers[hop] == if hop in rest then old(timers)[hop] else Aged(old(timers)[hop], ms)
        decreases rest
      {
        var hop :| hop in rest;
        rest := rest - {hop};
        timers := timers[hop := Aged(timers[hop], ms)];
        if timers[hop] > RESEND_ARP_MESSAGE_TIME {
          timers := timers - {hop};
        }
      }
    }

    /** The second loop of tick: addresses that are too old. */
    method AgeCache(ms: nat)
      modifies this`cache
      ensures cache == old(View()).Tick(ms).cache
    {
      var rest := cache.Keys;
      while rest != {}
        invariant rest <= cache.Keys
        invariant forall hop :: hop in cache <==>
                    hop in old(cache) && (hop in rest || Aged(old(cache)[hop].age, ms) <= MAX_ETHERNET_CACHE_TIME)
        invariant forall hop :: hop in cache ==>
                    cache[hop] == if hop in rest then old(cache)[hop]
                                  else old(cache)[hop].(age := Aged(old(cache)[hop].age, ms))
        decreases rest
      {
        var hop :| hop in rest;
        rest := rest - {hop};
        cache := cache[hop := cache[hop].(age := Aged(cache[hop].age, ms))];
        if cache[hop].age > MAX_ETHERNET_CACHE_TIME {
          cache := cache - {hop};
        }
      }
    }

    method Tick(ms: nat)
      modifies this
      ensures View() == old(View()).Tick(ms)
    {
      AgeTimers(ms);
      AgeCache(ms);
    }
  }
}
