/** Board identity and the partition of the shared 768-word buffer (eth_types.h). */
module Layout {
  import opened Bytes

  type mac = x: int | 0 <= x < 0x1_0000_0000_0000

  const BOARD_MAC: mac := 0x000A_3501_FEC0
  const BROADCAST_MAC: mac := 0xFFFF_FFFF_FFFF
  /** A MAC address from its bytes in wire order. */
  function MacOf(b: seq<byte>): mac
    requires |b| == 6
  {
    NumberFits(b);
    Number(b)
  }

  const BOARD_MAC_BYTES: seq<byte> := [0x00, 0x0A, 0x35, 0x01, 0xFE, 0xC0]

  lemma BoardMacBytes()
    ensures MacOf(BOARD_MAC_BYTES) == BOARD_MAC
  {
    var b := BOARD_MAC_BYTES;
    assert b[..6] == b && b[..6][..5] == b[..5] && b[..5][..4] == b[..4] && b[..4][..3] == b[..3];
    assert b[..3][..2] == b[..2] && b[..2][..1] == b[..1] && b[..1][..0] == [];
    assert Number(b[..1]) == 0x00 && Number(b[..2]) == 0x000A && Number(b[..3]) == 0x000A35;
    assert Number(b[..4]) == 0x000A_3501 && Number(b[..5]) == 0x00_0A35_01FE;
  }

  const BOARD_IP: word := WordOf(192, 168, 100, 2)
  const BROADCAST_IP: word := 0xFFFF_FFFF

  const ETHERTYPE_IPV4: u16 := 0x0800
  const ETHERTYPE_ARP: u16 := 0x0806

  const BUFFER_DEPTH: nat := 768
  const TX_SCRATCH_BASE: nat := 320
  const TX_SCRATCH_SIZE: nat := 64
  const DHCP_FRAME_BASE: nat := 384
  const DHCP_REGION_SIZE: nat := 128
  const TX_UDP_BASE: nat := 512
  const TX_UDP_SIZE: nat := 256
  const FRAME_BUF_WORDS: nat := 400

  /** A request from a frame builder to the MAC. */
  datatype TxReq = TxReq(dst: mac, ethertype: u16, addr: nat, len: u16, request: bool, vlan: bool, tci: u16)

  /** The one request register shared by all builders and the MAC. */
  class ReqRegister {
    var req: TxReq

    constructor ()
      ensures req == NO_REQUEST
    {
      req := NO_REQUEST;
    }
  }

  const NO_REQUEST: TxReq := TxReq(0, 0, 0, 0, false, false, 0)
}
