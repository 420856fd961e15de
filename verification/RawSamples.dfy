/** Raw integers from decimal text to shared RAM: the command path followed by
    the receive loop of the waveform firmware
    (examples/firmware_examples/example9-multichannel-waveform-gen/PRU1/main.c). */
module RawSamples {
  import opened Words
  import opened Text
  import opened Commands
  import opened RpmsgFormat

  const PAYLOAD_SIZE: nat := 4 * BUF_SIZE   // void* payload[RPMSG_BUF_SIZE], four bytes each

  /** Shared RAM after a list of 32-bit values: the first as a word, then one
      byte each. */
  function Image(values: seq<nat>): (r: seq<Byte>)
    ensures |r| == if values == [] then 0 else |values| + 3
  {
    if values == [] then []
    else if |values| == 1 then LE(values[0], 4)
    else Image(values[..|values| - 1]) + [values[|values| - 1] % 256]
  }

  /** Read off: word 0 is the first value, byte 3 + k the low byte of value k. */
  lemma {:induction false} ImageAt(values: seq<nat>, k: nat)
    requires k < |values|
    ensures Image(values)[..4] == LE(values[0], 4)
    ensures k > 0 ==> Image(values)[3 + k] == values[k] % 256
    decreases |values|
  {
    var n := |values| - 1;
    if n > 0 {
      ImageAt(values[..n], if k < n then k else n - 1);
      assert Image(values)[..4] == Image(values[..n])[..4];
    }
  }

  class SampleReceiver {
    const payload: array<Byte>   // the message buffer, kept between messages
    const sram: array<Byte>      // shared RAM from PRU_SRAM on
    var i: nat
    ghost var values: seq<nat>
    ghost const beyond: seq<Byte>  // shared RAM as it was

    ghost predicate Valid()
      reads this, sram
    {
      && payload.Length == PAYLOAD_SIZE && payload != sram && |beyond| == sram.Length
      && i == |Image(values)| <= sram.Length
      && sram[..] == Image(values) + beyond[i..]
    }

    constructor (payload: array<Byte>, sram: array<Byte>)
      requires payload.Length == PAYLOAD_SIZE && payload != sram
      ensures Valid() && values == [] && this.sram == sram && this.payload == payload && beyond == sram[..]
    {
      this.payload, this.sram, this.i, this.values, this.beyond := payload, sram, 0, [], sram[..];
    }

    /** One message: pru_rpmsg_receive puts it at the front of the buffer, then
        the loop body stores it. */
    method Store(msg: seq<Byte>)
      requires Valid() && |msg| <= MAX_PAYLOAD && (if i == 0 then 4 else i + 1) <= sram.Length
      modifies this`i, this`values, payload, sram
      ensures Valid() && payload[..] == msg + old(payload[|msg|..])
      ensures values == old(values) + [FromLE(payload[..][..4])]
    {
      Fill(msg);
      ghost var was := values;
      ghost var word := FromLE(payload[..][..4]);
      assert payload[..][..4] == payload[..4];
      assert (was + [word])[..|was|] == was;
      values := values + [word];
      if i == 0 {
        LEInverse(payload[..4]);
        ghost var mem := sram[..];
        sram[0], sram[1], sram[2], sram[3] := payload[0], payload[1], payload[2], payload[3];
        i := i + 4;
        assert sram[..] == payload[..4] + mem[4..];
        assert mem == beyond;
      } else {
        LowByte(payload[..4]);
        ghost var mem := sram[..];
        sram[i] := payload[0];
        i := i + 1;
        StoredByte(Image(was), beyond, mem, i - 1, payload[0]);
        assert sram[..] == mem[i - 1 := payload[0]];
      }
    }

    method Fill(msg: seq<Byte>)
      requires |msg| <= payload.Length
      modifies payload
      ensures payload[..] == msg + old(payload[|msg|..])
    {
      ghost var was := payload[..];
      for k := 0 to |msg|
        invariant forall j :: 0 <= j < k ==> payload[j] == msg[j]
        invariant forall j :: k <= j < payload.Length ==> payload[j] == was[j]
      {
        payload[k] := msg[k];
      }
    }
  }

  lemma StoredByte(image: seq<Byte>, beyond: seq<Byte>, mem: seq<Byte>, i: nat, b: Byte)
    requires i == |image| < |beyond| && mem == image + beyond[i..]
    ensures mem[i := b] == image + [b] + beyond[i + 1..]
  {
  }

  lemma {:induction false} LEInverse(bytes: seq<Byte>)
    ensures LE(FromLE(bytes), |bytes|) == bytes
    decreases |bytes|
  {
    if bytes != [] {
      LEInverse(bytes[1..]);
      assert FromLE(bytes) / 256 == FromLE(bytes[1..]);
    }
  }

  lemma LowByte(bytes: seq<Byte>)
    requires bytes != []
    ensures FromLE(bytes) % 256 == bytes[0]
  {
  }

  function Words32(values: seq<int>): (r: seq<nat>)
    ensures |r| == |values| && forall k :: 0 <= k < |values| ==> r[k] == values[k] % U32
  {
    seq(|values|, k requires 0 <= k < |values| => values[k] % U32)
  }

  lemma LowByteOf(x: int)
    ensures (x % U32) % 256 == x % 256
  {
  }

  /** What the image means for the memory it fills. */
  lemma ImageMeans(samples: seq<int>, mem: seq<Byte>, beyond: seq<Byte>)
    requires samples != [] && |samples| + 3 <= |beyond|
    requires mem == Image(Words32(samples)) + beyond[|samples| + 3..]
    ensures |mem| == |beyond| && mem[..4] == LE(samples[0] % U32, 4)
    ensures forall k :: 1 <= k < |samples| ==> mem[3 + k] == samples[k] % 256
    ensures mem[|samples| + 3..] == beyond[|samples| + 3..]
  {
    var words := Words32(samples);
    forall k | 0 <= k < |samples|
      ensures mem[..4] == LE(words[0], 4) && (k > 0 ==> mem[3 + k] == samples[k] % 256)
    {
      ImageAt(words, k);
      assert mem[..4] == Image(words)[..4];
      LowByteOf(samples[k]);
    }
  }

  /** Printing, parsing, packing and storing a list of ints leaves the first in
      the word at offset 0 and the low byte of value k at offset 3 + k; the rest
      of shared RAM is untouched. */
  method SendSamples(samples: seq<int>, chan: string, port: int, channels: set<string>, r: SampleReceiver)
    requires forall k :: 0 <= k < |samples| ==> -(U32 / 2) <= samples[k] < U32 / 2
    requires IsToken(chan) && chan in channels
    requires r.Valid() && r.values == [] && |samples| + 3 <= r.sram.Length
    modifies r`i, r`values, r.payload, r.sram
    ensures samples != [] ==> r.sram[..4] == LE(samples[0] % U32, 4)
    ensures forall k :: 1 <= k < |samples| ==> r.sram[3 + k] == samples[k] % 256
    ensures samples != [] ==> r.sram[|samples| + 3..] == r.beyond[|samples| + 3..]
    ensures samples == [] ==> r.sram[..] == r.beyond
  {
    for k := 0 to |samples|
      invariant r.Valid() && r.values == Words32(samples[..k])
    {
      var bytes := SendOne(samples[k], chan, port, channels);
      r.Store(bytes);
      FrontIs(r.payload[..], bytes);
      WordsMore(samples, k);
    }
    assert samples[..|samples|] == samples;
    if samples != [] { ImageMeans(samples, r.sram[..], r.beyond); }
  }

  lemma FrontIs(payload: seq<Byte>, bytes: seq<Byte>)
    requires |bytes| == 4 && bytes <= payload
    ensures payload[..4] == bytes
  {
  }

  lemma WordsMore(samples: seq<int>, k: nat)
    requires k < |samples|
    ensures Words32(samples[..k + 1]) == Words32(samples[..k]) + [samples[k] % U32]
  {
  }

  /** sendMsg_raw and the daemon's answer to it. */
  method SendOne(v: int, chan: string, port: int, channels: set<string>) returns (bytes: seq<Byte>)
    requires -(U32 / 2) <= v < U32 / 2 && IsToken(chan) && chan in channels
    ensures |bytes| == 4 && FromLE(bytes) == v % U32
  {
    var line := SendLine("r", chan, port, Dec(v)) + "\n";
    RawRoundTrip(chan, port, Dec(v), "", channels, true);
    PrintedWords(v);
    assert line + "" == line;
    WordSizes();
    LERoundTrip(v % U32, 4);
    bytes := Handle(line, channels, true).bytes;
  }
}
