/** RPMsg messages as they lie in a buffer: a 16-byte little-endian header
    followed by the payload (examples/lib/src/pru_rpmsg.c, struct pru_rpmsg_hdr
    and struct pru_rpmsg_ns_msg). */
module RpmsgFormat {
  import opened Words

  const HDR_SIZE: nat := 16    // sizeof(struct pru_rpmsg_hdr)
  const MAX_PAYLOAD: nat := BUF_SIZE - HDR_SIZE
  const NAME_SIZE: nat := 32   // RPMSG_NAME_SIZE
  const NS_SIZE: nat := 2 * NAME_SIZE + 8
  const NS_ADDR: nat := 53     // where name-service announcements go

  datatype Msg = Msg(src: nat, dst: nat, payload: seq<Byte>)
  {
    predicate Fits() { src < U32 && dst < U32 && |payload| <= MAX_PAYLOAD }
  }

  // -------------------------------------------------------- little endian

  function LE(x: nat, k: nat): (r: seq<Byte>)
    ensures |r| == k
  {
    if k == 0 then [] else [x % 256] + LE(x / 256, k - 1)
  }

  function FromLE(bytes: seq<Byte>): nat {
    if bytes == [] then 0 else bytes[0] + 256 * FromLE(bytes[1..])
  }

  function Pow256(k: nat): nat { if k == 0 then 1 else 256 * Pow256(k - 1) }

  lemma {:induction false} LERoundTrip(x: nat, k: nat)
    requires x < Pow256(k)
    ensures FromLE(LE(x, k)) == x
  {
    if k > 0 {
      LERoundTrip(x / 256, k - 1);
      assert LE(x, k)[1..] == LE(x / 256, k - 1);
    }
  }

  lemma WordSizes()
    ensures Pow256(2) == U16 && Pow256(4) == U32
  {
    assert Pow256(1) == 256 && Pow256(3) == 256 * Pow256(2);
  }

  /** LE and FromLE on the widths in use, byte for byte. */
  lemma LEBytes(x: nat)
    ensures var b := LE(x, 2); b[0] == x % 0x100 && b[1] == x / 0x100 % 0x100
    ensures var b := LE(x, 4);
            && b[0] == x % 0x100 && b[1] == x / 0x100 % 0x100
            && b[2] == x / 0x1_0000 % 0x100 && b[3] == x / 0x100_0000 % 0x100
  {
    LEStep(x, 1);
    LEStep(x / 0x100, 0);
    LEStep(x, 3);
    LEStep(x / 0x100, 2);
    LEStep(x / 0x100 / 0x100, 1);
    LEStep(x / 0x100 / 0x100 / 0x100, 0);
    Quotients(x);
  }

  lemma Quotients(x: nat)
    ensures x / 0x100 / 0x100 == x / 0x1_0000 && x / 0x100 / 0x100 / 0x100 == x / 0x100_0000
  {
  }

  lemma LEStep(x: nat, k: nat)
    ensures LE(x, k + 1) == [x % 0x100] + LE(x / 0x100, k)
  {
  }

  lemma FromLEBytes(b: seq<Byte>)
    ensures |b| == 2 ==> FromLE(b) == b[0] as int + 0x100 * b[1] as int
    ensures |b| == 4 ==>
              FromLE(b) == b[0] as int + 0x100 * b[1] as int + 0x1_0000 * b[2] as int + 0x100_0000 * b[3] as int
  {
    if |b| == 2 || |b| == 4 {
      assert FromLE(b) == b[0] + 0x100 * FromLE(b[1..]);
      assert FromLE(b[1..]) == b[1] + 0x100 * FromLE(b[1..][1..]) && b[1..][1..] == b[2..];
    }
    if |b| == 4 {
      assert FromLE(b[2..]) == b[2] + 0x100 * FromLE(b[2..][1..]) && b[2..][1..] == b[3..];
      assert FromLE(b[3..]) == b[3] + 0x100 * FromLE(b[3..][1..]) && b[3..][1..] == [];
    }
  }

  // -------------------------------------------------------------- buffers

  function Header(m: Msg): (r: seq<Byte>)
    ensures |r| == HDR_SIZE
  {
    LE(m.src, 4) + LE(m.dst, 4) + LE(0, 4) + LE(|m.payload|, 2) + LE(0, 2)
  }

  /** The buffer after pru_rpmsg_send has filled it: bytes past the payload keep
      whatever was there. */
  function Encode(m: Msg, was: seq<Byte>): (r: seq<Byte>)
    requires m.Fits() && |was| == BUF_SIZE
    ensures |r| == BUF_SIZE
  {
    Header(m) + m.payload + was[HDR_SIZE + |m.payload|..]
  }

  function LenField(buf: seq<Byte>): nat
    requires |buf| == BUF_SIZE
  {
    FromLE(buf[12..14])
  }

  /** A buffer whose length field stays inside it. */
  predicate WellFormed(buf: seq<Byte>) {
    |buf| == BUF_SIZE && LenField(buf) <= MAX_PAYLOAD
  }

  function Decode(buf: seq<Byte>): Msg
    requires WellFormed(buf)
  {
    Msg(FromLE(buf[0..4]), FromLE(buf[4..8]), buf[HDR_SIZE..HDR_SIZE + LenField(buf)])
  }

  /** The buffer of a message, byte for byte. */
  lemma EncodeBytes(m: Msg, was: seq<Byte>)
    requires m.Fits() && |was| == BUF_SIZE
    ensures var b, n := Encode(m, was), |m.payload|;
            && b[0] == m.src % 0x100 && b[1] == m.src / 0x100 % 0x100
            && b[2] == m.src / 0x1_0000 % 0x100 && b[3] == m.src / 0x100_0000 % 0x100
            && b[4] == m.dst % 0x100 && b[5] == m.dst / 0x100 % 0x100
            && b[6] == m.dst / 0x1_0000 % 0x100 && b[7] == m.dst / 0x100_0000 % 0x100
            && b[8] == b[9] == b[10] == b[11] == 0
            && b[12] == n % 0x100 && b[13] == n / 0x100 % 0x100
            && b[14] == b[15] == 0
            && b[16..16 + n] == m.payload && b[16 + n..] == was[16 + n..]
  {
    var b, n := Encode(m, was), |m.payload|;
    HeaderBytes(m);
    assert b[..16] == Header(m);
  }

  lemma HeaderBytes(m: Msg)
    ensures var b, n := Header(m), |m.payload|;
            && b[0] == m.src % 0x100 && b[1] == m.src / 0x100 % 0x100
            && b[2] == m.src / 0x1_0000 % 0x100 && b[3] == m.src / 0x100_0000 % 0x100
            && b[4] == m.dst % 0x100 && b[5] == m.dst / 0x100 % 0x100
            && b[6] == m.dst / 0x1_0000 % 0x100 && b[7] == m.dst / 0x100_0000 % 0x100
            && b[8] == b[9] == b[10] == b[11] == 0
            && b[12] == n % 0x100 && b[13] == n / 0x100 % 0x100
            && b[14] == b[15] == 0
  {
    LEBytes(m.src);
    LEBytes(m.dst);
    LEBytes(0);
    LEBytes(|m.payload|);
  }

  /** Reading a buffer, byte for byte. */
  lemma DecodeBytes(b: seq<Byte>)
    requires WellFormed(b)
    ensures var m := Decode(b);
            && m.src == b[0] as int + 0x100 * b[1] as int + 0x1_0000 * b[2] as int + 0x100_0000 * b[3] as int
            && m.dst == b[4] as int + 0x100 * b[5] as int + 0x1_0000 * b[6] as int + 0x100_0000 * b[7] as int
            && |m.payload| == b[12] as int + 0x100 * b[13] as int <= 496
            && m.payload == b[16..16 + |m.payload|]
  {
    FromLEBytes(b[0..4]);
    FromLEBytes(b[4..8]);
    FromLEBytes(b[12..14]);
  }

  lemma {:induction false} DecodeEncode(m: Msg, was: seq<Byte>)
    requires m.Fits() && |was| == BUF_SIZE
    ensures WellFormed(Encode(m, was)) && Decode(Encode(m, was)) == m
  {
    var b := Encode(m, was);
    WordSizes();
    LERoundTrip(m.src, 4);
    LERoundTrip(m.dst, 4);
    LERoundTrip(|m.payload|, 2);
    assert b[0..4] == LE(m.src, 4);
    assert b[4..8] == LE(m.dst, 4);
    assert b[12..14] == LE(|m.payload|, 2);
    assert b[HDR_SIZE..HDR_SIZE + |m.payload|] == m.payload;
  }

  /** What pru_rpmsg_receive reports: it narrows both addresses to uint16_t. */
  function Seen(m: Msg): (r: Msg)
    ensures r.src < U16 && r.dst < U16
    ensures r.src == m.src % 0x1_0000 && r.dst == m.dst % 0x1_0000 && r.payload == m.payload
  {
    Msg(m.src % U16, m.dst % U16, m.payload)
  }

  /** The same payload back the other way. */
  function Swap(m: Msg): (r: Msg)
    ensures r.src == m.dst && r.dst == m.src && r.payload == m.payload
  {
    Msg(m.dst, m.src, m.payload)
  }

  // --------------------------------------------- name-service announcement

  function NsPayload(name: seq<Byte>, desc: seq<Byte>, addr: nat, flags: nat): (r: seq<Byte>)
    requires |name| >= NAME_SIZE && |desc| >= NAME_SIZE
    ensures |r| == NS_SIZE
  {
    name[..NAME_SIZE] + desc[..NAME_SIZE] + LE(addr, 4) + LE(flags, 4)
  }

  /** The announcement pru_rpmsg_channel sends for a port. */
  function Announcement(flags: nat, name: seq<Byte>, desc: seq<Byte>, port: int): (m: Msg)
    requires |name| >= NAME_SIZE && |desc| >= NAME_SIZE && flags < U32
    ensures m.Fits()
  {
    Msg(port % U32, NS_ADDR, NsPayload(name, desc, port % U32, flags))
  }

  /** The announcement goes from the port to address 53, and the host can read
      every field of it back at its offset. */
  lemma AnnouncementReadable(flags: nat, name: seq<Byte>, desc: seq<Byte>, port: int)
    requires |name| >= NAME_SIZE && |desc| >= NAME_SIZE && flags < U32
    ensures var m := Announcement(flags, name, desc, port);
            && m.src == port % 0x1_0000_0000 && m.dst == 53 && |m.payload| == 72
            && m.payload[..32] == name[..32] && m.payload[32..64] == desc[..32]
            && FromLE(m.payload[64..68]) == port % 0x1_0000_0000 && FromLE(m.payload[68..72]) == flags
  {
    var p := Announcement(flags, name, desc, port).payload;
    WordSizes();
    LERoundTrip(port % U32, 4);
    LERoundTrip(flags, 4);
    assert p[64..68] == LE(port % U32, 4);
    assert p[68..72] == LE(flags, 4);
  }
}
