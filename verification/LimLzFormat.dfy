/**
 The LimLZ stream: the decompressor of the boot stage (limine/stage1/decompressor.asm) and the
 byte layout the packer emits for a parse (limine/tools/limlzpack.c).
 */
module LimLzFormat {
  import opened Bytes
  import opened LimLzMatches

  const MAX_LITERALS: nat := 270
  const MAX_MATCH: nat := 266

  // ---- The decompressor ------------------------------------------------------------------

  /** `rep movsb` from `off` bytes back: one byte at a time, so the copy may overlap itself. */
  function CopyMatch(out: seq<byte>, off: nat, len: nat): seq<byte>
    requires 1 <= off <= |out|
    decreases len
  {
    if len == 0 then out else CopyMatch(out + [out[|out| - off]], off, len - 1)
  }

  /** The result of one token: the new output, and how much of the input it used. */
  datatype TokenResult =
    | Invalid                                       // reads outside the stream or the output
    | Finished(out: seq<byte>)                      // input exhausted
    | More(out: seq<byte>, used: nat)

  /** The token's literal run: the output after it and the position behind it, or `None`. */
  function DecodeLiteralRun(inp: seq<byte>, out: seq<byte>): (r: Option<(seq<byte>, nat)>)
    requires |inp| > 0
    ensures r.Some? ==> 0 < r.value.1 <= |inp|
  {
    var hi := inp[0] / 8 % 16;
    if hi == 15 && |inp| < 2 then None else
    var lit: nat := if hi == 15 then inp[1] as int + 15 else hi;
    var p := if hi == 15 then 2 else 1;
    if p + lit > |inp| then None else Some((out + inp[p..p + lit], p + lit))
  }

  /** The token's match: offset and length from position `q` on, then the copy. */
  function DecodeMatch(token: byte, inp: seq<byte>, q: nat, out: seq<byte>): (r: TokenResult)
    requires q < |inp|
    ensures r.More? ==> q < r.used < |inp|
  {
    var offBytes := if token >= 128 then 2 else 1;
    if q + offBytes > |inp| then Invalid else
    var off: nat := if token >= 128 then inp[q] as int + 256 * inp[q + 1] as int else inp[q];
    var e := q + offBytes;
    var lo := token % 8;
    if lo == 7 && e == |inp| then Invalid else
    var ml: nat := if lo == 7 then inp[e] as int + 7 + 4 else lo as int + 4;
    var e' := if lo == 7 then e + 1 else e;
    if !(1 <= off <= |out|) then Invalid else
    var out2 := CopyMatch(out, off, ml);
    if e' >= |inp| then Finished(out2) else More(out2, e')
  }

  /** One turn of the decompression loop, on the input from the token on. */
  function DecodeToken(inp: seq<byte>, out: seq<byte>): (r: TokenResult)
    ensures r.More? ==> 0 < r.used < |inp|
  {
    if |inp| == 0 then Invalid else
    match DecodeLiteralRun(inp, out)
    case None => Invalid
    case Some((out1, q)) =>
      if q == |inp| then Finished(out1) else DecodeMatch(inp[0], inp, q, out1)
  }

  function Decode(inp: seq<byte>, out: seq<byte>): Option<seq<byte>>
    decreases |inp|
  {
    match DecodeToken(inp, out)
    case Invalid => None
    case Finished(o) => Some(o)
    case More(o, used) => Decode(inp[used..], o)
  }

  /** The decompressor as the loop it is, advancing `ip` through the stream. */
  method Decompress(stream: seq<byte>) returns (r: Option<seq<byte>>)
    ensures r == Decode(stream, [])
  {
    hide DecodeToken;
    var ip, out := 0, [];
    while true
      invariant ip <= |stream|
      invariant Decode(stream[ip..], out) == Decode(stream, [])
      decreases |stream| - ip
    {
      match DecodeToken(stream[ip..], out)
      case Invalid => return None;
      case Finished(o) => return Some(o);
      case More(o, used) =>
        assert stream[ip..][used..] == stream[ip + used..];
        ip, out := ip + used, o;
    }
  }

  // ---- Parses and their encoding ---------------------------------------------------------

  /** A token's worth of output: a final literal run, or literals followed by a match. */
  datatype Step = Literals(n: nat) | Match(lit: nat, ml: nat, off: nat)

  /** A match of `ml` bytes may follow `lit` literals at position `i`. */
  ghost predicate LegalMatch(n: nat, mch: seq<MatchChoice>, i: nat, lit: nat, ml: nat) {
    && |mch| == n
    && lit <= MAX_LITERALS && i + lit < n
    && mch[i + lit].len >= 4
    && 4 <= ml <= MAX_MATCH && ml <= mch[i + lit].len && i + lit + ml <= n
  }

  /** The parse covers positions `i .. n`, with the offsets chosen in `mch`. */
  ghost predicate ValidParse(n: nat, mch: seq<MatchChoice>, i: nat, p: seq<Step>)
    decreases |p|
  {
    if p == [] then i == n
    else match p[0]
      case Literals(l) => |p| == 1 && i + l == n && 1 <= l <= MAX_LITERALS
      case Match(lit, ml, off) =>
        && LegalMatch(n, mch, i, lit, ml) && off == mch[i + lit].off
        && ValidParse(n, mch, i + lit + ml, p[1..])
  }

  ghost predicate EndsInMatch(p: seq<Step>) {
    p == [] || p[|p| - 1].Match?
  }

  function OffsetCost(off: nat): nat { if off > 255 then 2 else 1 }

  function LiteralCost(l: nat): nat { 1 + l + (if l >= 15 then 1 else 0) }

  function MatchCost(lit: nat, ml: nat, off: nat): nat
    requires ml >= 4
  {
    LiteralCost(lit) + OffsetCost(off) + (if ml - 4 >= 7 then 1 else 0)
  }

  /** What the packer's dynamic program charges for a parse. */
  ghost function Cost(p: seq<Step>): nat {
    if p == [] then 0
    else match p[0]
      case Literals(l) => LiteralCost(l)
      case Match(lit, ml, off) => (if ml >= 4 then MatchCost(lit, ml, off) else 0) + Cost(p[1..])
  }

  function LiteralTail(l: nat): seq<byte> { if l >= 15 then [Trunc8(l - 15)] else [] }
  function MatchTail(m: nat): seq<byte> { if m >= 7 then [Trunc8(m - 7)] else [] }
  function OffsetBytes(off: nat): seq<byte> {
    if off > 255 then [Trunc8(off), Trunc8(off / 256)] else [Trunc8(off)]
  }
  function Capped(x: nat, cap: nat): nat { if x < cap then x else cap }
  function FinalToken(lit: nat): byte { Trunc8(8 * Capped(lit, 15)) }
  function MatchToken(lit: nat, ml: nat, off: nat): byte
    requires ml >= 4
  {
    Trunc8((if off > 255 then 128 else 0) + 8 * Capped(lit, 15) + Capped(ml - 4, 7))
  }

  /** The bytes of a final literal run. */
  function EncodeLiterals(src: seq<byte>, i: nat, l: nat): seq<byte>
    requires i + l <= |src|
  {
    [FinalToken(l)] + LiteralTail(l) + src[i..i + l]
  }

  /** The bytes of a literal run and the match after it. */
  function EncodeMatch(src: seq<byte>, i: nat, lit: nat, ml: nat, off: nat): seq<byte>
    requires i + lit <= |src| && ml >= 4
  {
    [MatchToken(lit, ml, off)] + LiteralTail(lit) + src[i..i + lit] + OffsetBytes(off) + MatchTail(ml - 4)
  }

  /** The whole stream; a parse that ends on a match gets a closing zero token. */
  ghost function Encode(src: seq<byte>, mch: seq<MatchChoice>, i: nat, p: seq<Step>): seq<byte>
    requires ValidParse(|src|, mch, i, p)
    decreases |p|
  {
    if p == [] then [0]
    else match p[0]
      case Literals(l) => EncodeLiterals(src, i, l)
      case Match(lit, ml, off) =>
        EncodeMatch(src, i, lit, ml, off) + Encode(src, mch, i + lit + ml, p[1..])
  }

  // ---- Size ------------------------------------------------------------------------------

  /** The stream is as long as the parse's cost, plus one byte when it ends on a match. */
  lemma {:induction false} EncodedSize(src: seq<byte>, mch: seq<MatchChoice>, i: nat, p: seq<Step>)
    requires ValidParse(|src|, mch, i, p)
    ensures |Encode(src, mch, i, p)| == Cost(p) + (if EndsInMatch(p) then 1 else 0)
    ensures Encode(src, mch, i, p) != []
    decreases |p|
  {
    if p != [] && p[0].Match? {
      EncodedSize(src, mch, i + p[0].lit + p[0].ml, p[1..]);
    }
  }

  /** Twice the input is always room enough. */
  lemma {:induction false} EncodedFitsTwice(n: nat, mch: seq<MatchChoice>, i: nat, p: seq<Step>)
    requires ValidParse(n, mch, i, p)
    ensures Cost(p) <= 2 * (n - i)
    ensures EndsInMatch(p) && p != [] ==> Cost(p) + 1 <= 2 * (n - i)
    decreases |p|
  {
    if p != [] && p[0].Match? {
      EncodedFitsTwice(n, mch, i + p[0].lit + p[0].ml, p[1..]);
      assert p[1..] != [] ==> p[1..][|p| - 2] == p[|p| - 1];
    }
  }

  // ---- Round trip ------------------------------------------------------------------------

  /** Copying a repeat, overlapping or not, reproduces the source. */
  lemma {:induction false} CopyMatchRepeats(src: seq<byte>, i: nat, len: nat, off: nat)
    requires Repeats(src, i, len, off)
    ensures CopyMatch(src[..i], off, len) == src[..i + len]
    decreases len
  {
    if len > 0 {
      assert src[i] == src[i..i + len][0] == src[i - off..i - off + len][0] == src[i - off];
      assert src[..i] + [src[..i][i - off]] == src[..i + 1];
      assert src[i + 1..i + len] == src[i..i + len][1..];
      assert src[i + 1 - off..i - off + len] == src[i - off..i - off + len][1..];
      CopyMatchRepeats(src, i + 1, len - 1, off);
    }
  }

  lemma RepeatsPrefix(src: seq<byte>, i: nat, len: nat, off: nat, m: nat)
    requires Repeats(src, i, len, off) && m <= len
    ensures Repeats(src, i, m, off)
  {
    assert src[i..i + m] == src[i..i + len][..m];
    assert src[i - off..i - off + m] == src[i - off..i - off + len][..m];
  }

  lemma TokenFields(mode: nat, hi: nat, lo: nat)
    requires mode < 2 && hi < 16 && lo < 8
    ensures Trunc8(128 * mode + 8 * hi + lo) == 128 * mode + 8 * hi + lo
    ensures (128 * mode + 8 * hi + lo) / 8 % 16 == hi
    ensures (128 * mode + 8 * hi + lo) % 8 == lo
  {
    assert (128 * mode + 8 * hi + lo) / 8 == 16 * mode + hi;
  }

  /** A legal match over sound choices is a repeat of its own length. */
  lemma LegalMatchRepeats(src: seq<byte>, mch: seq<MatchChoice>, i: nat, lit: nat, ml: nat)
    requires SoundChoices(src, mch) && LegalMatch(|src|, mch, i, lit, ml)
    ensures Repeats(src, i + lit, ml, mch[i + lit].off) && mch[i + lit].off <= MAX_OFFSET
    ensures i + lit + ml <= |src| && 4 <= ml <= MAX_MATCH && lit <= MAX_LITERALS
  {
    RepeatsPrefix(src, i + lit, mch[i + lit].len, mch[i + lit].off, ml);
  }

  /** A match token's fields come back as they went in: nothing is truncated. */
  lemma MatchTokenFields(lit: nat, ml: nat, off: nat)
    requires ml >= 4
    ensures MatchToken(lit, ml, off) / 8 % 16 == Capped(lit, 15)
    ensures MatchToken(lit, ml, off) % 8 == Capped(ml - 4, 7)
    ensures MatchToken(lit, ml, off) >= 128 <==> off > 255
  {
    TokenFields(if off > 255 then 1 else 0, Capped(lit, 15), Capped(ml - 4, 7));
  }

  lemma OffsetBytesDecode(off: nat)
    requires off <= MAX_OFFSET
    ensures off > 255 ==> Trunc8(off) as int + 256 * Trunc8(off / 256) as int == off
    ensures off <= 255 ==> Trunc8(off) == off
  {
  }

  /** The literal run of any token that carries `lit` in its field decodes to those literals. */
  lemma DecodeLiteralRunOf(src: seq<byte>, i: nat, lit: nat, token: byte, rest: seq<byte>)
    requires i + lit <= |src| && lit <= MAX_LITERALS
    requires token / 8 % 16 == Capped(lit, 15)
    ensures DecodeLiteralRun([token] + LiteralTail(lit) + src[i..i + lit] + rest, src[..i])
            == Some((src[..i + lit], 1 + |LiteralTail(lit)| + lit))
  {
    var inp := [token] + LiteralTail(lit) + src[i..i + lit] + rest;
    var p := if lit >= 15 then 2 else 1;
    assert lit >= 15 ==> inp[1] == LiteralTail(lit)[0] == lit - 15;
    assert inp[p..p + lit] == src[i..i + lit];
    assert src[..i] + src[i..i + lit] == src[..i + lit];
  }

  /** The match fields decode to the repeat they describe. */
  lemma DecodeMatchOf(src: seq<byte>, j: nat, ml: nat, off: nat, token: byte, front: seq<byte>, rest: seq<byte>)
    requires 4 <= ml <= MAX_MATCH && off <= MAX_OFFSET
    requires Repeats(src, j, ml, off)
    requires token % 8 == Capped(ml - 4, 7) && (token >= 128 <==> off > 255)
    requires rest != []
    ensures DecodeMatch(token, front + OffsetBytes(off) + MatchTail(ml - 4) + rest, |front|, src[..j])
            == More(src[..j + ml], |front + OffsetBytes(off) + MatchTail(ml - 4)|)
  {
    hide CopyMatch, Repeats, Trunc8;
    var ob, mt := OffsetBytes(off), MatchTail(ml - 4);
    var inp := front + ob + mt + rest;
    var q, e := |front|, |front| + |ob|;
    OffsetBytesDecode(off);
    assert inp[q] == ob[0] && (off > 255 ==> inp[q + 1] == ob[1]);
    MatchTailDecode(ml);
    assert ml - 4 >= 7 ==> inp[e] == mt[0];
    CopyMatchRepeats(src, j, ml, off);
    RepeatsWithin(src, j, ml, off);
  }

  lemma RepeatsWithin(src: seq<byte>, i: nat, len: nat, off: nat)
    requires Repeats(src, i, len, off)
    ensures 1 <= off <= i && i + len <= |src|
  {
  }

  lemma MatchTailDecode(ml: nat)
    requires 4 <= ml <= MAX_MATCH
    ensures if ml - 4 >= 7 then |MatchTail(ml - 4)| == 1 && MatchTail(ml - 4)[0] == ml - 11 else MatchTail(ml - 4) == []
  {
  }

  lemma Regroup(a: seq<byte>, b: seq<byte>, c: seq<byte>, d: seq<byte>)
    ensures a + (b + c + d) == a + b + c + d
  {
  }

  lemma TokenWithMatch(inp: seq<byte>, out: seq<byte>, out1: seq<byte>, q: nat)
    requires |inp| > 0 && DecodeLiteralRun(inp, out) == Some((out1, q)) && q < |inp|
    ensures DecodeToken(inp, out) == DecodeMatch(inp[0], inp, q, out1)
  {
    hide DecodeLiteralRun, DecodeMatch;
  }

  /** Decoding one match step consumes exactly its bytes and extends the output by its span. */
  lemma DecodeMatchStep(src: seq<byte>, i: nat, lit: nat, ml: nat, off: nat, rest: seq<byte>)
    requires 4 <= ml <= MAX_MATCH && lit <= MAX_LITERALS && off <= MAX_OFFSET
    requires Repeats(src, i + lit, ml, off)
    requires rest != []
    ensures DecodeToken(EncodeMatch(src, i, lit, ml, off) + rest, src[..i])
            == More(src[..i + lit + ml], |EncodeMatch(src, i, lit, ml, off)|)
  {
    hide DecodeToken, DecodeLiteralRun, DecodeMatch, MatchToken, LiteralTail, OffsetBytes, MatchTail, Capped;
    var token := MatchToken(lit, ml, off);
    var front := [token] + LiteralTail(lit) + src[i..i + lit];
    var ob, mt := OffsetBytes(off), MatchTail(ml - 4);
    var inp := EncodeMatch(src, i, lit, ml, off) + rest;
    MatchTokenFields(lit, ml, off);
    Regroup(front, ob, mt, rest);
    assert inp == front + ob + mt + rest;
    DecodeLiteralRunOf(src, i, lit, token, ob + mt + rest);
    TokenWithMatch(inp, src[..i], src[..i + lit], |front|);
    DecodeMatchOf(src, i + lit, ml, off, token, front, rest);
  }

  lemma DecodeLiteralsStep(src: seq<byte>, i: nat, l: nat)
    requires i + l == |src| && l <= MAX_LITERALS
    ensures DecodeToken(EncodeLiterals(src, i, l), src[..i]) == Finished(src)
    ensures l == 0 ==> EncodeLiterals(src, i, l) == [0]
  {
    TokenFields(0, Capped(l, 15), 0);
    DecodeLiteralRunOf(src, i, l, FinalToken(l), []);
    assert EncodeLiterals(src, i, l) == [FinalToken(l)] + LiteralTail(l) + src[i..i + l] + [];
    assert src[..i + l] == src;
  }

  lemma DecodeMore(inp: seq<byte>, out: seq<byte>, more: seq<byte>, used: nat)
    requires DecodeToken(inp, out) == More(more, used)
    ensures used <= |inp| && Decode(inp, out) == Decode(inp[used..], more)
  {
    hide DecodeToken;
  }

  /** One match step in front of a stream that decodes. */
  lemma MatchInFront(src: seq<byte>, mch: seq<MatchChoice>, i: nat, lit: nat, ml: nat, rest: seq<byte>)
    requires SoundChoices(src, mch) && LegalMatch(|src|, mch, i, lit, ml) && rest != []
    requires i + lit + ml <= |src| && Decode(rest, src[..i + lit + ml]) == Some(src)
    ensures Decode(EncodeMatch(src, i, lit, ml, mch[i + lit].off) + rest, src[..i]) == Some(src)
  {
    hide Decode, DecodeToken, EncodeMatch, LegalMatch, Repeats, SoundChoices;
    LegalMatchRepeats(src, mch, i, lit, ml);
    LegalMatchSpan(|src|, mch, i, lit, ml);
    var enc := EncodeMatch(src, i, lit, ml, mch[i + lit].off);
    DecodeMatchStep(src, i, lit, ml, mch[i + lit].off, rest);
    DecodeMore(enc + rest, src[..i], src[..i + lit + ml], |enc|);
    assert (enc + rest)[|enc|..] == rest;
  }

  lemma LegalMatchSpan(n: nat, mch: seq<MatchChoice>, i: nat, lit: nat, ml: nat)
    requires LegalMatch(n, mch, i, lit, ml)
    ensures |mch| == n && i + lit < n && i + lit + ml <= n && ml >= 4
  {
  }

  /** Decoding any parse over true repeats gives back the source. */
  lemma {:induction false} RoundTrip(src: seq<byte>, mch: seq<MatchChoice>, i: nat, p: seq<Step>)
    requires SoundChoices(src, mch)
    requires i <= |src| && ValidParse(|src|, mch, i, p)
    ensures Decode(Encode(src, mch, i, p), src[..i]) == Some(src)
    decreases |p|
  {
    hide DecodeToken, EncodeMatch, EncodeLiterals, LegalMatch, SoundChoices, Cost;
    if p == [] {
      DecodeLiteralsStep(src, i, 0);
    } else if p[0].Literals? {
      DecodeLiteralsStep(src, i, p[0].n);
    } else {
      var Match(lit, ml, off) := p[0];
      var next := i + lit + ml;
      LegalMatchSpan(|src|, mch, i, lit, ml);
      EncodedSize(src, mch, next, p[1..]);
      RoundTrip(src, mch, next, p[1..]);
      MatchInFront(src, mch, i, lit, ml, Encode(src, mch, next, p[1..]));
    }
  }
}
