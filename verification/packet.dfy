/**
  The packet exchanged between server and clients: a count of clients, the id of the
  receiving client, a state and a grid position for each of the `MAX_CLIENTS` slots, and a
  2000-byte map buffer. `PacketModule` wraps one packet and reads the receiver's own slot.
 */
module Packet {

  /** `MAX_CLIENTS`, the number of slots `packet.cpp` fills. */
  const MaxClients: nat := 10

  /** The size of the packet's map buffer. */
  const MapBytes: nat := 2000

  newtype Byte = b: int | 0 <= b < 256

  datatype PlayerState = Playing | Waiting | Ended

  datatype Packet = Packet(
    nbClient: int,
    clientId: int,
    playerState: seq<PlayerState>,
    playerPosition: seq<(int, int)>,
    mapData: seq<Byte>)

  /** The arrays have their declared lengths. */
  predicate WellFormed(p: Packet) {
    |p.playerState| == MaxClients && |p.playerPosition| == MaxClients && |p.mapData| == MapBytes
  }

  /** The receiver's id names one of the slots, as the accessors require. */
  predicate OwnSlot(p: Packet) {
    WellFormed(p) && 0 <= p.clientId < MaxClients
  }

  datatype PacketModule = PacketModule(pkt: Packet)

  /**
    `PacketModule(nb_clients)`: value-initialised (all map bytes zero), receiver 0, every
    slot waiting at (0, 0).
   */
  function NewWith(nbClients: int): (m: PacketModule)
    ensures OwnSlot(m.pkt)
    ensures m.pkt.nbClient == nbClients && m.pkt.clientId == 0
    ensures forall i :: 0 <= i < MaxClients ==> m.pkt.playerState[i] == Waiting && m.pkt.playerPosition[i] == (0, 0)
    ensures forall i :: 0 <= i < MapBytes ==> m.pkt.mapData[i] == 0
  {
    PacketModule(Packet(nbClients, 0, seq(MaxClients, _ => Waiting), seq(MaxClients, _ => (0, 0)), seq(MapBytes, _ => 0 as Byte)))
  }

  /** `PacketModule()`: the same filling with no clients. */
  function New(): (m: PacketModule)
    ensures OwnSlot(m.pkt) && m.pkt.nbClient == 0 && m.pkt.clientId == 0
    ensures forall i :: 0 <= i < MaxClients ==> m.pkt.playerState[i] == Waiting && m.pkt.playerPosition[i] == (0, 0)
    ensures forall i :: 0 <= i < MapBytes ==> m.pkt.mapData[i] == 0
  {
    PacketModule(Packet(0, 0, seq(MaxClients, _ => Waiting), seq(MaxClients, _ => (0, 0)), seq(MapBytes, _ => 0 as Byte)))
  }

  /** The default constructor is the counted one with zero clients. */
  lemma NewIsNewWithZero()
    ensures New() == NewWith(0)
  {
  }

  /** The copy constructor: the whole packet, map buffer and every slot included, is copied. */
  function Copy(other: PacketModule): (m: PacketModule)
    ensures m.pkt == other.pkt
    ensures GetClientId(m) == GetClientId(other) && GetNbClient(m) == GetNbClient(other)
    ensures OwnSlot(other.pkt) ==> OwnSlot(m.pkt) && GetState(m) == GetState(other) && GetPosition(m) == GetPosition(other)
  {
    PacketModule(other.pkt)
  }

  /** `setPacket`: the whole packet is replaced. */
  function SetPacket(m: PacketModule, pkt: Packet): (r: PacketModule)
    ensures r.pkt == pkt
    ensures GetClientId(r) == pkt.clientId && GetNbClient(r) == pkt.nbClient
    ensures OwnSlot(pkt) ==> OwnSlot(r.pkt) && GetState(r) == pkt.playerState[pkt.clientId] && GetPosition(r) == pkt.playerPosition[pkt.clientId]
  {
    m.(pkt := pkt)
  }

  /** `getstate`: the state of the receiver's own slot. */
  function GetState(m: PacketModule): (s: PlayerState)
    requires OwnSlot(m.pkt)
    ensures s in m.pkt.playerState
    ensures s == m.pkt.playerState[m.pkt.clientId]
  {
    m.pkt.playerState[m.pkt.clientId]
  }

  /** `getPosition`: the position of the receiver's own slot. */
  function GetPosition(m: PacketModule): (pos: (int, int))
    requires OwnSlot(m.pkt)
    ensures pos in m.pkt.playerPosition
    ensures pos == m.pkt.playerPosition[m.pkt.clientId]
  {
    m.pkt.playerPosition[m.pkt.clientId]
  }

  /** `getClientId`: the receiver id stored in the packet. */
  function GetClientId(m: PacketModule): (id: int)
    ensures id == m.pkt.clientId
  {
    m.pkt.clientId
  }

  /** `getNbClient`: the client count stored in the packet. */
  function GetNbClient(m: PacketModule): (n: int)
    ensures n == m.pkt.nbClient
  {
    m.pkt.nbClient
  }

  /** A just-constructed module reports receiver 0, waiting at (0, 0), with the given client count. */
  lemma FreshAccessors(n: int)
    ensures GetClientId(NewWith(n)) == 0 && GetNbClient(NewWith(n)) == n
    ensures GetState(NewWith(n)) == Waiting && GetPosition(NewWith(n)) == (0, 0)
  {
  }

  /** Setting a packet twice keeps only the second; setting a module's own packet changes nothing. */
  lemma SetPacketLastWins(m: PacketModule, p: Packet, q: Packet)
    ensures SetPacket(SetPacket(m, p), q) == SetPacket(m, q)
    ensures SetPacket(m, m.pkt) == m
  {
  }
}
