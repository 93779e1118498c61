/** SLIP framing (RFC 1055): the encoder towards the guest, the decoder back, and the growing send
    buffer of the decoder. */
module Slip {

  type byte = b: nat | b < 256

  const END: byte := 192
  const ESC: byte := 219
  const ESC_END: byte := 220
  const ESC_ESC: byte := 221
  const SNDBUF_STEP: nat := 1500

  // ---------------------------------------------------------------- framing as functions

  function EncodeByte(b: byte): seq<byte> {
    if b == END then [ESC, ESC_END] else if b == ESC then [ESC, ESC_ESC] else [b]
  }

  function EncodeBytes(p: seq<byte>): seq<byte> {
    if p == [] then [] else EncodeBytes(p[..|p|-1]) + EncodeByte(p[|p|-1])
  }

  function Encode(p: seq<byte>): seq<byte> { EncodeBytes(p) + [END] }

  function EncodeAll(ps: seq<seq<byte>>): seq<byte> {
    if ps == [] then [] else EncodeAll(ps[..|ps|-1]) + Encode(ps[|ps|-1])
  }

  /** The bytes received of the current packet, and the packets passed on. */
  datatype Decoder = Decoder(buf: seq<byte>, sent: seq<seq<byte>>)

  function Feed(d: Decoder, data: byte): Decoder {
    var n := |d.buf|;
    if data == END then (if n > 0 then Decoder([], d.sent + [d.buf]) else d)
    else if n > 0 && d.buf[n - 1] == ESC && data == ESC_END then d.(buf := d.buf[n - 1 := END])
    else if n > 0 && d.buf[n - 1] == ESC && data == ESC_ESC then d.(buf := d.buf[n - 1 := ESC])
    else d.(buf := d.buf + [data])
  }

  function FeedAll(d: Decoder, data: seq<byte>): Decoder {
    if data == [] then d else Feed(FeedAll(d, data[..|data|-1]), data[|data|-1])
  }

  function Decode(data: seq<byte>): seq<seq<byte>> { FeedAll(Decoder([], []), data).sent }

  lemma {:induction false} FeedAllConcat(d: Decoder, a: seq<byte>, b: seq<byte>)
    ensures FeedAll(d, a + b) == FeedAll(FeedAll(d, a), b)
  {
    if b == [] {
      assert a + b == a;
    } else {
      FeedAllConcat(d, a, b[..|b|-1]);
      assert (a + b)[..|a + b|-1] == a + b[..|b|-1];
    }
  }

  /** The escapes of RFC 1055, and that the byte that ends a packet stands nowhere inside one. */
  lemma {:induction false} PacketEndsOnce(p: seq<byte>)
    ensures EncodeByte(192) == [219, 220] && EncodeByte(219) == [219, 221]
    ensures forall i :: 0 <= i < |Encode(p)| ==> (Encode(p)[i] == 192 <==> i == |Encode(p)| - 1)
  {
    if p != [] {
      PacketEndsOnce(p[..|p|-1]);
      var front := EncodeBytes(p[..|p|-1]);
      assert Encode(p[..|p|-1]) == front + [END];
      forall i | 0 <= i < |front| ensures front[i] != 192 {
        assert Encode(p[..|p|-1])[i] == front[i];
      }
    }
  }

  /** What the decoder makes of one encoded byte after `buf`: a literal ESC_END or ESC_ESC behind a
      decoded ESC is taken for the second half of an escape. */
  function Absorb(buf: seq<byte>, b: byte): seq<byte> {
    if buf != [] && buf[|buf|-1] == ESC && (b == ESC_END || b == ESC_ESC) then
      buf[|buf|-1 := if b == ESC_END then END else ESC]
    else buf + [b]
  }

  function AbsorbAll(p: seq<byte>): seq<byte> {
    if p == [] then [] else Absorb(AbsorbAll(p[..|p|-1]), p[|p|-1])
  }

  lemma FeedOne(d: Decoder, b: byte)
    ensures FeedAll(d, [b]) == Feed(d, b)
  {
  }

  lemma FeedTwo(d: Decoder, a: byte, b: byte)
    ensures FeedAll(d, [a, b]) == Feed(Feed(d, a), b)
  {
    FeedOne(d, a);
    assert [a, b][..1] == [a];
  }

  lemma FeedEncodedByte(d: Decoder, b: byte)
    ensures FeedAll(d, EncodeByte(b)) == d.(buf := Absorb(d.buf, b))
  {
    if b == END || b == ESC {
      var half := if b == END then ESC_END else ESC_ESC;
      FeedTwo(d, ESC, half);
      assert Feed(d, ESC).buf == d.buf + [ESC];
      assert (d.buf + [ESC])[|d.buf| := b] == d.buf + [b];
    } else {
      FeedOne(d, b);
    }
  }

  lemma {:induction false} FeedEncodedBytes(sent: seq<seq<byte>>, p: seq<byte>)
    ensures FeedAll(Decoder([], sent), EncodeBytes(p)) == Decoder(AbsorbAll(p), sent)
  {
    if p != [] {
      var front := p[..|p|-1];
      FeedEncodedBytes(sent, front);
      FeedAllConcat(Decoder([], sent), EncodeBytes(front), EncodeByte(p[|p|-1]));
      FeedEncodedByte(Decoder(AbsorbAll(front), sent), p[|p|-1]);
    }
  }

  lemma FeedPacket(sent: seq<seq<byte>>, p: seq<byte>)
    ensures FeedAll(Decoder([], sent), Encode(p)) == Decoder([], if p == [] then sent else sent + [AbsorbAll(p)])
  {
    FeedEncodedBytes(sent, p);
    FeedAllConcat(Decoder([], sent), EncodeBytes(p), [END]);
    assert [END][..0] == [];
    var d := Decoder(AbsorbAll(p), sent);
    assert FeedAll(d, [END]) == Feed(d, END);
    AbsorbKeepsSomething(p);
  }

  lemma {:induction false} AbsorbKeepsSomething(p: seq<byte>)
    ensures |AbsorbAll(p)| <= |p| && (p != [] ==> AbsorbAll(p) != [])
  {
    if p != [] {
      AbsorbKeepsSomething(p[..|p|-1]);
    }
  }

  /** The packets of a list that are not empty, as the decoder renders them. */
  function Rendered(ps: seq<seq<byte>>): seq<seq<byte>> {
    if ps == [] then []
    else Rendered(ps[..|ps|-1]) + if ps[|ps|-1] == [] then [] else [AbsorbAll(ps[|ps|-1])]
  }

  lemma {:induction false} DecodeRenders(ps: seq<seq<byte>>)
    ensures FeedAll(Decoder([], []), EncodeAll(ps)) == Decoder([], Rendered(ps))
  {
    if ps != [] {
      var front := ps[..|ps|-1];
      DecodeRenders(front);
      FeedAllConcat(Decoder([], []), EncodeAll(front), Encode(ps[|ps|-1]));
      FeedPacket(Rendered(front), ps[|ps|-1]);
    }
  }

  // ---------------------------------------------------------------- when the round trip holds

  /** No ESC is directly followed by ESC_END or ESC_ESC. */
  predicate Clean(p: seq<byte>) {
    forall i :: 0 <= i < |p| - 1 && p[i] == ESC ==> p[i + 1] != ESC_END && p[i + 1] != ESC_ESC
  }

  lemma CleanSnoc(front: seq<byte>, b: byte)
    ensures Clean(front + [b]) <==>
      Clean(front) && !(front != [] && front[|front|-1] == ESC && (b == ESC_END || b == ESC_ESC))
  {
    var p := front + [b];
    if Clean(p) {
      forall i | 0 <= i < |front| - 1 && front[i] == ESC ensures front[i + 1] != ESC_END && front[i + 1] != ESC_ESC {
        assert p[i] == ESC && p[i + 1] == front[i + 1];
      }
      if front != [] {
        assert p[|front|-1] == front[|front|-1] && p[|front|-1 + 1] == b;
      }
    } else {
      var i :| 0 <= i < |p| - 1 && p[i] == ESC && (p[i + 1] == ESC_END || p[i + 1] == ESC_ESC);
      if i < |front| - 1 {
        assert front[i] == ESC && front[i + 1] == p[i + 1];
      }
    }
  }

  lemma {:induction false} CleanRenders(p: seq<byte>)
    ensures Clean(p) ==> AbsorbAll(p) == p
    ensures !Clean(p) ==> |AbsorbAll(p)| < |p|
  {
    if p != [] {
      var front, b := p[..|p|-1], p[|p|-1];
      CleanRenders(front);
      CleanSnoc(front, b);
      assert p == front + [b];
    }
  }

  predicate Transparent(p: seq<byte>) { p != [] && Clean(p) }

  lemma {:induction false} RenderedLength(ps: seq<seq<byte>>)
    ensures |Rendered(ps)| <= |ps|
    ensures |Rendered(ps)| == |ps| ==> forall i :: 0 <= i < |ps| ==> ps[i] != []
    ensures |Rendered(ps)| == |ps| ==> forall i :: 0 <= i < |ps| ==> Rendered(ps)[i] == AbsorbAll(ps[i])
  {
    if ps != [] {
      var front := ps[..|ps|-1];
      RenderedLength(front);
      assert forall i :: 0 <= i < |front| ==> front[i] == ps[i];
    }
  }

  lemma {:induction false} TransparentRenders(ps: seq<seq<byte>>)
    requires forall i :: 0 <= i < |ps| ==> Transparent(ps[i])
    ensures Rendered(ps) == ps
  {
    if ps != [] {
      TransparentRenders(ps[..|ps|-1]);
      CleanRenders(ps[|ps|-1]);
      assert ps == ps[..|ps|-1] + [ps[|ps|-1]];
    }
  }

  /** Round trip: decoding the concatenated encodings of a list of packets gives the list back
      exactly when every packet is nonempty and has no ESC in front of ESC_END or ESC_ESC. */
  lemma RoundTrip(ps: seq<seq<byte>>)
    ensures Decode(EncodeAll(ps)) == ps <==> forall i :: 0 <= i < |ps| ==> Transparent(ps[i])
  {
    DecodeRenders(ps);
    if forall i :: 0 <= i < |ps| ==> Transparent(ps[i]) {
      TransparentRenders(ps);
    }
    if Rendered(ps) == ps {
      RenderedLength(ps);
      forall i | 0 <= i < |ps| ensures Transparent(ps[i]) {
        CleanRenders(ps[i]);
        assert Rendered(ps)[i] == ps[i];
      }
    }
  }

  /** The smallest packet that is not transparent: two bytes arrive as one. */
  lemma EscapePairIsLost()
    ensures Decode(Encode([ESC, ESC_END])) == [[END]]
  {
    var p: seq<byte> := [ESC, ESC_END];
    FeedPacket([], p);
    assert p[..1] == [ESC] && [ESC][..0] == [];
    assert AbsorbAll([ESC]) == [ESC];
    assert AbsorbAll(p) == [END];
    assert [] + [[END]] == [[END]];
  }

  // ---------------------------------------------------------------- the objects

  class SlipPort {
    var sndbuf: array<byte>
    var sndsiz: nat
    var tun: seq<seq<byte>>          // packets written to the network device
    var rx: seq<byte>                // bytes queued towards the guest

    constructor ()
      ensures Valid() && fresh(sndbuf)
      ensures Value() == Decoder([], []) && rx == []
    {
      sndbuf := new byte[SNDBUF_STEP];
      sndsiz := 0;
      tun := [];
      rx := [];
      new;
      assert sndbuf.Length == SNDBUF_STEP * 1;
    }

    /** The buffer holds the received bytes, in the least number of steps, but at least one. */
    ghost predicate Valid()
      reads this
    {
      && sndsiz <= sndbuf.Length
      && (exists k: nat :: sndbuf.Length == SNDBUF_STEP * k && k > 0 && (k == 1 || SNDBUF_STEP * (k - 1) < sndsiz))
    }

    ghost function Value(): Decoder
      reads this, sndbuf
      requires Valid()
    {
      Decoder(sndbuf[..sndsiz], tun)
    }

    /** A new buffer with as much of the old contents as fits. */
    method Realloc(size: nat)
      requires sndsiz <= sndbuf.Length
      modifies this`sndbuf
      ensures fresh(sndbuf) && sndbuf.Length == size
      ensures forall i :: 0 <= i < size && i < old(sndbuf).Length ==> sndbuf[i] == old(sndbuf[..])[i]
    {
      var b := new byte[size];
      var i := 0;
      while i < size && i < sndbuf.Length
        invariant i <= size && i <= sndbuf.Length && sndbuf == old(sndbuf) && sndbuf[..] == old(sndbuf[..])
        invariant forall j :: 0 <= j < i ==> b[j] == sndbuf[j]
      {
        b[i] := sndbuf[i];
        i := i + 1;
      }
      sndbuf := b;
    }

    method SendPacket()
      requires Valid()
      modifies this
      ensures Valid() && Value() == Decoder([], old(tun) + [old(sndbuf[..sndsiz])])
      ensures rx == old(rx) && (sndbuf == old(sndbuf) || fresh(sndbuf))
    {
      tun := tun + [sndbuf[..sndsiz]];
      if sndsiz > SNDBUF_STEP {
        Realloc(SNDBUF_STEP);
      }
      sndsiz := 0;
      assert sndbuf.Length == SNDBUF_STEP * 1;
    }

    /** One byte from the guest. */
    method WriteData(data: byte)
      requires Valid()
      modifies this, sndbuf
      ensures Valid() && Value() == Feed(old(Value()), data)
      ensures rx == old(rx) && (sndbuf == old(sndbuf) || fresh(sndbuf))
    {
      if data == END {
        if sndsiz > 0 {
          SendPacket();
        }
        return;
      }
      if sndsiz > 0 && sndbuf[sndsiz - 1] == ESC {
        if data == ESC_END {
          sndbuf[sndsiz - 1] := END;
          return;
        }
        if data == ESC_ESC {
          sndbuf[sndsiz - 1] := ESC;
          return;
        }
      }
      GrowthKeepsSteps();
      if sndsiz != 0 && sndsiz % SNDBUF_STEP == 0 {
        Realloc(sndsiz + SNDBUF_STEP);
      }
      sndbuf[sndsiz] := data;
      sndsiz := sndsiz + 1;
    }

    /** The buffer is full exactly at the sizes at which the code grows it. */
    lemma GrowthKeepsSteps()
      requires Valid()
      ensures sndsiz == sndbuf.Length <==> sndsiz != 0 && sndsiz % SNDBUF_STEP == 0
      ensures sndsiz == sndbuf.Length ==>
                exists k: nat :: sndsiz + SNDBUF_STEP == SNDBUF_STEP * k && k > 1 && SNDBUF_STEP * (k - 1) < sndsiz + 1
    {
      var k: nat :| sndbuf.Length == SNDBUF_STEP * k && k > 0 && (k == 1 || SNDBUF_STEP * (k - 1) < sndsiz);
      assert SNDBUF_STEP * (k + 1) == sndbuf.Length + SNDBUF_STEP;
      assert SNDBUF_STEP * (k + 1 - 1) == sndbuf.Length;
    }

    /** A packet from the network device is queued, escaped and terminated. */
    method HandleInput(rcvbuf: seq<byte>)
      modifies this`rx
      ensures rx == old(rx) + Encode(rcvbuf)
    {
      var i := 0;
      while i < |rcvbuf|
        invariant i <= |rcvbuf| && rx == old(rx) + EncodeBytes(rcvbuf[..i])
      {
        if rcvbuf[i] == END {
          rx := rx + [ESC];
          rx := rx + [ESC_END];
        } else if rcvbuf[i] == ESC {
          rx := rx + [ESC];
          rx := rx + [ESC_ESC];
        } else {
          rx := rx + [rcvbuf[i]];
        }
        assert rcvbuf[..i + 1][..i] == rcvbuf[..i];
        assert rx == old(rx) + (EncodeBytes(rcvbuf[..i]) + EncodeByte(rcvbuf[i]));
        i := i + 1;
      }
      assert rcvbuf[..|rcvbuf|] == rcvbuf;
      rx := rx + [END];
      assert rx == old(rx) + (EncodeBytes(rcvbuf) + [END]);
    }
  }
}
