/**
 Token emission, the packer as a whole and the boot image it writes
 (limine/tools/limlzpack.c), against the decompressor that loads it
 (limine/stage1/decompressor.asm).
 */
module LimLzPack {
  import opened Bytes
  import opened Crc32
  import opened LimLzFormat
  import opened LimLzMatches
  import opened LimLzFailure
  import opened LimLzParse
  import opened LimLzStreams
  import SuffixArray

  // ---- Emission --------------------------------------------------------------------------

  /** Room check and copy: the shape of every store to the output. */
  method Append(dst: array<byte>, o: nat, bytes: seq<byte>) returns (ok: bool, o': nat)
    requires o <= dst.Length
    modifies dst
    ensures ok <==> o + |bytes| <= dst.Length
    ensures ok ==> o' == o + |bytes| && dst[..o'] == old(dst[..o]) + bytes
  {
    if dst.Length - o < |bytes| {
      return false, o;
    }
    forall k | 0 <= k < |bytes| {
      dst[o + k] := bytes[k];
    }
    return true, o + |bytes|;
  }

  /** The bytes one pick stands for. */
  function Piece(src: seq<byte>, i: nat, c: ParseChoice): seq<byte>
    requires i + c.lit <= |src|
    requires i + c.lit < |src| ==> c.mlen >= 4
  {
    if i + c.lit == |src| then EncodeLiterals(src, i, c.lit)
    else EncodeMatch(src, i, c.lit, c.mlen, c.off)
  }

  /** One turn of the emission loop: the token is reserved first and patched once it is known. */
  method EmitPiece(dst: array<byte>, o: nat, src: seq<byte>, i: nat, c: ParseChoice) returns (ok: bool, o': nat)
    requires o <= dst.Length
    requires i + c.lit <= |src|
    requires i + c.lit < |src| ==> c.mlen >= 4
    modifies dst
    ensures ok <==> o + |Piece(src, i, c)| <= dst.Length
    ensures ok ==> o' == o + |Piece(src, i, c)| && dst[..o'] == old(dst[..o]) + Piece(src, i, c)
  {
    ghost var front := dst[..o];
    var tokenp := o;
    ok, o' := Append(dst, o, [0]);
    if !ok { return; }
    ok, o' := Append(dst, o', LiteralTail(c.lit));
    if !ok { return; }
    ok, o' := Append(dst, o', src[i..i + c.lit]);
    if !ok { return; }
    assert dst[..o'] == front + [0] + LiteralTail(c.lit) + src[i..i + c.lit];
    if i + c.lit >= |src| {
      PatchToken(dst[..o'], front, LiteralTail(c.lit), src[i..i + c.lit], FinalToken(c.lit));
      dst[tokenp] := FinalToken(c.lit);
      return;
    }
    PatchToken(dst[..o'], front, LiteralTail(c.lit), src[i..i + c.lit], MatchToken(c.lit, c.mlen, c.off));
    dst[tokenp] := MatchToken(c.lit, c.mlen, c.off);
    ghost var head := [MatchToken(c.lit, c.mlen, c.off)] + LiteralTail(c.lit) + src[i..i + c.lit];
    assert dst[..o'] == front + head;
    ok, o' := Append(dst, o', OffsetBytes(c.off));
    if !ok { return; }
    ok, o' := Append(dst, o', MatchTail(c.mlen - 4));
    if !ok { return; }
    assert dst[..o'] == front + head + OffsetBytes(c.off) + MatchTail(c.mlen - 4);
    Regroup(front, head, OffsetBytes(c.off), MatchTail(c.mlen - 4));
  }

  lemma PatchToken(now: seq<byte>, front: seq<byte>, tail: seq<byte>, lits: seq<byte>, token: byte)
    requires now == front + [0] + tail + lits
    ensures now[|front| := token] == front + ([token] + tail + lits)
  {
  }

  /** `rest` is the stream still to be written when the emission stands at `i`. */
  ghost predicate Pending(src: seq<byte>, mch: seq<MatchChoice>, dp: seq<nat>, pick: seq<ParseChoice>, i: nat, rest: seq<byte>) {
    && Bellman(|src|, mch, dp, pick, 0) && i <= |src| && dp[i] != NO_PARSE
    && ValidParse(|src|, mch, i, PickedParse(|src|, mch, dp, pick, i))
    && rest == Encode(src, mch, i, PickedParse(|src|, mch, dp, pick, i))
  }

  /** Writing the pick at `i` leaves the stream of the position it leads to. */
  lemma PendingStep(src: seq<byte>, mch: seq<MatchChoice>, dp: seq<nat>, pick: seq<ParseChoice>, i: nat, rest: seq<byte>)
    returns (rest': seq<byte>)
    requires Pending(src, mch, dp, pick, i, rest) && i < |src|
    ensures i + pick[i].lit <= |src|
    ensures i + pick[i].lit < |src| ==> pick[i].mlen >= 4 && i + pick[i].lit + pick[i].mlen <= |src|
    ensures rest == Piece(src, i, pick[i]) + rest'
    ensures i + pick[i].lit == |src| ==> rest' == []
    ensures i + pick[i].lit < |src| ==> Pending(src, mch, dp, pick, i + pick[i].lit + pick[i].mlen, rest')
  {
    hide BelowMatches, EncodeMatch, EncodeLiterals, LegalMatch, Cost;
    assert BellmanAt(|src|, mch, dp, pick, i);
    var c := pick[i];
    if c.mlen == 0 {
      PendingLast(src, mch, dp, pick, i, rest);
      rest' := [];
    } else {
      LegalMatchBounds(|src|, mch, i, c.lit, c.mlen);
      var next := i + c.lit + c.mlen;
      PickedParseCost(|src|, mch, dp, pick, next);
      EncodeCons(src, mch, i, c.lit, c.mlen, c.off, PickedParse(|src|, mch, dp, pick, next));
      rest' := Encode(src, mch, next, PickedParse(|src|, mch, dp, pick, next));
    }
  }

  lemma PendingLast(src: seq<byte>, mch: seq<MatchChoice>, dp: seq<nat>, pick: seq<ParseChoice>, i: nat, rest: seq<byte>)
    requires Pending(src, mch, dp, pick, i, rest) && i < |src| && pick[i].mlen == 0
    ensures i + pick[i].lit == |src| && rest == EncodeLiterals(src, i, pick[i].lit) + []
  {
    hide BelowMatches, EncodeMatch, EncodeLiterals, LegalMatch, Cost;
    assert BellmanAt(|src|, mch, dp, pick, i);
    assert PickedParse(|src|, mch, dp, pick, i) == [Literals(pick[i].lit)];
  }

  lemma PendingEnd(src: seq<byte>, mch: seq<MatchChoice>, dp: seq<nat>, pick: seq<ParseChoice>, rest: seq<byte>)
    requires Pending(src, mch, dp, pick, |src|, rest)
    ensures rest == [0]
  {
  }

  lemma Appended(whole: seq<byte>, written: seq<byte>, piece: seq<byte>, rest: seq<byte>)
    requires whole == written + (piece + rest)
    ensures whole == (written + piece) + rest
  {
  }

  /** The emission loop: succeeds exactly when the whole stream fits, and then writes it. */
  method Emit(dst: array<byte>, src: seq<byte>, ghost mch: seq<MatchChoice>, pick: array<ParseChoice>,
              ghost dp: seq<nat>, ghost whole: seq<byte>)
    returns (r: nat)
    requires pick.Length == |src| + 1
    requires Pending(src, mch, dp, pick[..], 0, whole)
    modifies dst
    ensures if |whole| <= dst.Length then r == |whole| && dst[..r] == whole else r == 0
  {
    hide Pending, Piece;
    var n := |src|;
    ghost var picks := pick[..];
    var i: nat, o: nat, terminated := 0, 0, false;
    ghost var rest := whole;
    while i < n
      invariant i <= n && o <= dst.Length
      invariant pick[..] == picks
      invariant !terminated ==> Pending(src, mch, dp, picks, i, rest)
      invariant terminated ==> i == n && rest == []
      invariant whole == dst[..o] + rest
      decreases n - i
    {
      var c := pick[i];
      assert c == picks[i];
      ghost var rest' := PendingStep(src, mch, dp, picks, i, rest);
      Appended(whole, dst[..o], Piece(src, i, c), rest');
      var ok, o' := EmitPiece(dst, o, src, i, c);
      if !ok { return 0; }
      rest := rest';
      o := o';
      if i + c.lit >= n {
        terminated := true;
        i := n;
      } else {
        i := i + c.lit + c.mlen;
      }
    }
    if !terminated {
      PendingEnd(src, mch, dp, picks, rest);
      var ok, o' := Append(dst, o, [0]);
      if !ok { return 0; }
      o := o';
    }
    r := o;
    assert whole == dst[..o];
  }

  lemma EncodeCons(src: seq<byte>, mch: seq<MatchChoice>, i: nat, lit: nat, ml: nat, off: nat, q: seq<Step>)
    requires LegalMatch(|src|, mch, i, lit, ml) && off == mch[i + lit].off
    requires ValidParse(|src|, mch, i + lit + ml, q)
    ensures ValidParse(|src|, mch, i, [Match(lit, ml, off)] + q)
    ensures Encode(src, mch, i, [Match(lit, ml, off)] + q)
            == EncodeMatch(src, i, lit, ml, off) + Encode(src, mch, i + lit + ml, q)
  {
    var p := [Match(lit, ml, off)] + q;
    assert p[0] == Match(lit, ml, off) && p[1..] == q;
  }

  // ---- The packer ------------------------------------------------------------------------

  /**
   `limlzpack`, on the matches it finds. A nonzero result is the length of a stream that decodes to
   the source, and at most one byte longer than any stream at all that decodes to the source using
   those matches; and with room for twice the source the packer fails exactly when there is none.
   */
  method Pack(dst: array<byte>, src: seq<byte>) returns (r: nat, ghost mch: seq<MatchChoice>)
    requires |src| <= INT32_MAX
    modifies dst
    ensures r <= dst.Length
    ensures r != 0 ==> Decode(dst[..r], []) == Some(src)
    ensures SoundChoices(src, mch) && LongestChoices(src, mch)
    ensures r != 0 ==> forall inp :: Decode(inp, []) == Some(src) && UsesFound(inp, [], mch) ==> r <= |inp| + 1
    ensures dst.Length >= 2 * |src| >= 2 && r == 0 ==>
              forall inp :: Decode(inp, []) == Some(src) ==> !UsesFound(inp, [], mch)
    ensures dst.Length >= 2 * |src| && 1 <= |src| <= 270 ==> r != 0
    ensures r != 0 ==> forall p :: ValidParse(|src|, mch, 0, p) ==> r <= |Encode(src, mch, 0, p)| + 1
    ensures dst.Length >= 2 * |src| >= 2 ==> (r != 0 <==> Packs(src))
    ensures dst.Length >= 2 * |src| >= 2 && r == 0 ==> GivesUp(src)
    ensures src == [] ==> (r != 0 <==> dst.Length >= 1)
  {
    var n := |src|;
    if n == 0 {
      mch := [];
      NoChoices(src);
      if dst.Length < 1 { return 0, []; }
      dst[0] := 0;
      assert dst[..1] == [0];
      RoundTrip(src, [], 0, []);
      forall p | ValidParse(n, mch, 0, p) ensures 1 <= |Encode(src, mch, 0, p)| + 1 {}
      return 1, [];
    }
    var choices, sa := LongestMatches(src);
    mch := choices;
    var dp, pick := BuildParse(n, choices);
    ghost var table, picks := dp[..], pick[..];
    TableIsOptimal(n, choices, table, picks);
    PacksIffPackable(src, choices);
    forall inp | Decode(inp, []) == Some(src) && UsesFound(inp, [], choices) ensures dp[0] != NO_PARSE && dp[0] <= |inp| {
      NoStreamBeats(src, choices, table, picks, inp);
    }
    if n <= 270 { ShortIsPackable(n, choices); }
    if dp[0] == NO_PARSE {
      FailureHasBarrenStretch(src, choices);
      return 0, choices;
    }
    PickedParseCost(n, choices, table, picks, 0);
    ghost var best := PickedParse(n, choices, table, picks, 0);
    r := Emit(dst, src, choices, pick, table, Encode(src, choices, 0, best));
    EncodedSize(src, choices, 0, best);
    EncodedFitsTwice(n, choices, 0, best);
    RoundTrip(src, choices, 0, best);
    assert src[..0] == [];
    forall p | ValidParse(n, choices, 0, p) ensures |Encode(src, choices, 0, best)| <= |Encode(src, choices, 0, p)| + 1 {
      EncodedSize(src, choices, 0, p);
    }
  }

  lemma NoChoices(src: seq<byte>)
    requires src == []
    ensures LongestChoices(src, [])
  {
    assert SuffixArray.IsSuffixArray(src, []) && ChosenFrom(src, [], []);
  }

  // ---- The image -------------------------------------------------------------------------

  /** The boot stage: decompress, checksum bit by bit, and start only on a match. */
  function Boot(image: seq<byte>): Option<seq<byte>> {
    if |image| < 4 then None else
    match Decode(image[4..], [])
    case None => None
    case Some(out) => if Crc(out) as int == ReadLe32(image) then Some(out) else None
  }

  /** It starts exactly what the stream decodes to, and only under the checksum in front of the stream. */
  lemma BootsExactly(stream: seq<byte>, sum: nat, out: seq<byte>)
    requires sum < 0x1_0000_0000
    ensures Boot(Le32(sum) + stream) == Some(out) <==> Decode(stream, []) == Some(out) && Crc(out) as int == sum
  {
    hide Decode, Crc, ReadLe32, Le32;
    var image := Le32(sum) + stream;
    assert image[4..] == stream;
    FrontIsSum(sum, stream);
  }

  lemma FrontIsSum(sum: nat, stream: seq<byte>)
    requires sum < 0x1_0000_0000
    ensures ReadLe32(Le32(sum) + stream) == sum
  {
    Le32RoundTrip(sum);
    assert ReadLe32(Le32(sum) + stream) == ReadLe32(Le32(sum));
  }

  /**
   The packer's `main`: checksum and stream, with an output buffer of twice the input; inputs whose
   positions do not fit 32 bits with a sign are refused. The boot stage recovers exactly the input
   from every image written, and an image is written for every nonempty input that can be packed, so
   for every one of up to 270 bytes.
   */
  method PackFile(src: seq<byte>) returns (image: Option<seq<byte>>, ghost mch: seq<MatchChoice>)
    ensures image.Some? ==> Boot(image.value) == Some(src)
    ensures image.Some? <==> src != [] && |src| < 0x8000_0000 && Packs(src)
    ensures 1 <= |src| <= 270 ==> image.Some?
    ensures |src| < 0x8000_0000 ==> SoundChoices(src, mch) && LongestChoices(src, mch)
  {
    if |src| > INT32_MAX { return None, []; }
    var dst := new byte[2 * |src|];
    var r;
    r, mch := Pack(dst, src);
    if r == 0 {
      return None, mch;
    }
    var crc := CrcNibble(src);
    BootsFrom(src, dst[..r], crc as int);
    return Some(Le32(crc as int) + dst[..r]), mch;
  }

  /** A checksum and a stream that decodes to `src` boot to `src`. */
  lemma BootsFrom(src: seq<byte>, stream: seq<byte>, crc: nat)
    requires Decode(stream, []) == Some(src)
    requires crc == Crc(src) as int
    ensures Boot(Le32(crc) + stream) == Some(src)
  {
    BootsExactly(stream, crc, src);
  }
}
