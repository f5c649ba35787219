/** Receiver and reference decoder on the actual link. */
module SerialLink {
  import opened Bytes
  import opened Framing
  import opened Scanner
  import opened Decoder
  import opened Refinement
  import Crc

  /** The link as configured: payloads of at most 128 bytes under the CRC. */
  const SERIAL: Link := Link(MAX_PAYLOAD, data => Crc.CheckField(data))

  lemma NextIsFit(link: Link)
    ensures Fit(Next(link))
  {
    NextIsSound(link);
    NextIsStable(link);
    forall a, b ensures PromptOn(Next(link), a, b) {
      DecidedByLastByte(a, b, link);
    }
  }

  lemma DecidedByLastByte(a: seq<byte>, b: byte, link: Link)
    ensures PromptOn(Next(link), a, b)
  {
    var q := a + [b];
    if |a| >= 2 && Decide(a, link).Wait? {
      assert StartsWithSync(a) && StartsWithSync(q);
      if |a| >= HEADER_SIZE {
        assert LengthField(a) == LengthField(q);
      }
    }
  }

  /** The exact condition for being in step at every byte looked at. */
  lemma InStepExactly(link: Link, stream: seq<byte>)
    ensures InStepRun(Next(link), IDLE, [], stream) <==> UndisturbedRun(Next(link), IDLE, stream)
    ensures UndisturbedRun(Next(link), IDLE, stream) ==>
              Agree(Run(Next(link), IDLE, stream), Scan(Next(link), stream))
  {
    NextIsFit(link);
    assert PromptOn(Next(link), [], 0);
    assert Scan(Next(link), []) == Scanned([], 0, []) && [] + stream == stream;
    RunExact(Next(link), IDLE, [], stream);
  }

  lemma {:induction false} NoiseIsDropped(noise: seq<byte>, c: Core, link: Link)
    requires SYNC0 !in noise && c.pending == []
    ensures Run(Next(link), c, noise) == c && Replay(Next(link), c, noise) == c
    decreases |noise|
  {
    if noise != [] {
      assert Advance(Next(link), c, noise[0]) == Kept(c);
      NoiseIsDropped(noise[1..], c, link);
    }
  }

  /** Encoded frames behind noise without a sync byte reach the firmware complete and in order,
      from any idle state. */
  lemma FirmwareRoundTrip(c: Core, noise: seq<byte>, fs: seq<Frame>, link: Link)
    requires c.pending == [] && SYNC0 !in noise && AllSendable(fs, link)
    ensures Run(Next(link), c, noise + EncodeAll(Enc(link), fs)) == c.(log := c.log + fs)
  {
    DecodesAllEncoded(fs, link);
    forall f | f in fs ensures Enc(link)(f) != [] && Enc(link)(f)[0] == SYNC0 {
      EncodedFields(f, link);
    }
    RunConcat(Next(link), c, noise, EncodeAll(Enc(link), fs));
    NoiseIsDropped(noise, c, link);
    RunEncoded(Next(link), Enc(link), c, fs);
  }

  /** On every stream whatsoever, each frame the firmware reports lies whole and valid in it. */
  lemma FirmwareIsSound(link: Link, stream: seq<byte>, f: Frame)
    requires f in Run(Next(link), IDLE, stream).log
    ensures exists p: nat :: ValidAt(stream, p, link) && FrameAt(stream, p, link) == f
  {
    NextIsFit(link);
    assert IsSuffix(IDLE.pending, []) && AllOccur(Next(link), [], IDLE.log);
    RunOccurs(Next(link), IDLE, [], stream);
    assert [] + stream == stream;
    var p: nat :| AcceptedAt(Next(link), stream, p) && Next(link)(stream[p..]).frame == f;
    AcceptedIsValid(stream, p, link);
  }
}
