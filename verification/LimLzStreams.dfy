/**
 The LimLZ stream as the boot stage sees it (limine/stage1/decompressor.asm): what one token can
 express, and the packer's result (limine/tools/limlzpack.c) measured against every stream, however
 it came about.
 */
module LimLzStreams {
  import opened Bytes
  import opened SuffixArray
  import opened LimLzMatches
  import opened LimLzFormat
  import opened LimLzParse

  // ---- What a token can express --------------------------------------------------------------------------

  ghost predicate RunsOf(lit: nat) {
    exists inp: seq<byte> :: |inp| > 0 && DecodeLiteralRun(inp, []).Some? && |DecodeLiteralRun(inp, []).value.0| == lit
  }

  function Grown(r: TokenResult): seq<byte> { if r.Invalid? then [] else r.out }

  /** Some token's match copies `ml` bytes. */
  ghost predicate CopiesOf(ml: nat) {
    exists inp: seq<byte> :: |inp| > 1 && !DecodeMatch(inp[0], inp, 1, [0]).Invalid?
                             && |Grown(DecodeMatch(inp[0], inp, 1, [0]))| == 1 + ml
  }

  function Zeros(n: nat): (z: seq<byte>)
    ensures |z| == n
  {
    seq(n, _ => 0)
  }

  /** Some token's match needs exactly `off` bytes of output before it. */
  ghost predicate Reaches(off: nat) {
    exists inp: seq<byte> :: |inp| > 1 && !DecodeMatch(inp[0], inp, 1, Zeros(off)).Invalid?
                             && (off > 0 ==> DecodeMatch(inp[0], inp, 1, Zeros(off - 1)).Invalid?)
  }

  /** A literal run is as its bytes say: the header, one more for 15 and beyond, and the literals. */
  lemma LiteralShape(inp: seq<byte>, out: seq<byte>)
    requires |inp| > 0 && DecodeLiteralRun(inp, out).Some?
    ensures var (out1, q) := DecodeLiteralRun(inp, out).value;
            var lit := |out1| - |out|;
            && 0 <= lit <= 15 + 255 && out1[..|out|] == out
            && q == 1 + lit + (if lit >= 15 then 1 else 0)
  {
  }

  /** The offset of a match whose token is `token`, with its bytes at `q`. */
  function OffsetAt(token: byte, inp: seq<byte>, q: nat): nat
    requires q + 2 <= |inp| || (q < |inp| && token < 128)
  {
    if token < 128 then inp[q] else inp[q] as int + 256 * inp[q + 1] as int
  }

  lemma {:induction false} CopyMatchShape(out: seq<byte>, off: nat, len: nat)
    requires 1 <= off <= |out|
    ensures |CopyMatch(out, off, len)| == |out| + len && CopyMatch(out, off, len)[..|out|] == out
    decreases len
  {
    if len > 0 {
      var more := out + [out[|out| - off]];
      CopyMatchShape(more, off, len - 1);
      assert CopyMatch(more, off, len - 1)[..|out|] == CopyMatch(more, off, len - 1)[..|more|][..|out|];
    }
  }

  /** How far the input of a match goes. */
  function MatchEnd(inp: seq<byte>, r: TokenResult): nat {
    match r case Invalid => 0 case Finished(_) => |inp| case More(_, used) => used
  }

  /** A match is as its bytes say: one or two for the offset, one more for eleven bytes and beyond. */
  lemma MatchShape(token: byte, inp: seq<byte>, q: nat, out: seq<byte>)
    requires q < |inp| && !DecodeMatch(token, inp, q, out).Invalid?
    ensures var r := DecodeMatch(token, inp, q, out);
            var ml := |r.out| - |out|;
            && 4 <= ml <= 4 + 7 + 255 && r.out[..|out|] == out
            && (token >= 128 ==> q + 2 <= |inp|) && 1 <= OffsetAt(token, inp, q) <= |out|
            && OffsetAt(token, inp, q) <= 0xffff
            && MatchEnd(inp, r) == q + (if token < 128 then 1 else 2) + (if ml >= 11 then 1 else 0)
  {
    var off := OffsetAt(token, inp, q);
    var lo := token % 8;
    var e := q + (if token < 128 then 1 else 2);
    var ml: nat := if lo == 7 then inp[e] as int + 11 else lo as int + 4;
    CopyMatchShape(out, off, ml);
  }

  /** A run can have any length up to 15 and the 255 of one more byte. */
  lemma RunLimit(lit: nat)
    ensures RunsOf(lit) <==> lit <= 15 + 255
  {
    if RunsOf(lit) {
      var inp: seq<byte> :| |inp| > 0 && DecodeLiteralRun(inp, []).Some? && |DecodeLiteralRun(inp, []).value.0| == lit;
      LiteralShape(inp, []);
    }
    if lit <= 15 + 255 {
      var header: seq<byte> := if lit < 15 then [8 * lit] else [120, lit - 15];
      var inp: seq<byte> := header + Zeros(lit);
      assert inp[0] / 8 % 16 == if lit < 15 then lit else 15;
      assert DecodeLiteralRun(inp, []).Some? && |DecodeLiteralRun(inp, []).value.0| == lit;
    }
  }

  /** A match can have any length from 4 to 11 and the 255 of one more byte. */
  lemma CopyLimit(ml: nat)
    ensures CopiesOf(ml) <==> 4 <= ml <= 4 + 7 + 255
  {
    if CopiesOf(ml) {
      var inp: seq<byte> :| |inp| > 1 && !DecodeMatch(inp[0], inp, 1, [0]).Invalid?
                            && |Grown(DecodeMatch(inp[0], inp, 1, [0]))| == 1 + ml;
      MatchShape(inp[0], inp, 1, [0]);
    }
    if 4 <= ml <= 4 + 7 + 255 {
      var inp := CopyHeader(ml);
      assert !DecodeMatch(inp[0], inp, 1, [0]).Invalid?;
    }
  }

  lemma CopyHeader(ml: nat) returns (inp: seq<byte>)
    requires 4 <= ml <= 4 + 7 + 255
    ensures |inp| > 1 && !DecodeMatch(inp[0], inp, 1, [0]).Invalid? && |Grown(DecodeMatch(inp[0], inp, 1, [0]))| == 1 + ml
  {
    inp := if ml < 11 then [ml - 4, 1] else [7, 1, ml - 11];
    CopyMatchShape([0], 1, ml);
  }

  /** A match can reach back any distance from 1 to 65535. */
  lemma ReachLimit(off: nat)
    ensures Reaches(off) <==> 1 <= off <= 65535
  {
    if Reaches(off) {
      var inp: seq<byte> :| |inp| > 1 && !DecodeMatch(inp[0], inp, 1, Zeros(off)).Invalid?
                            && (off > 0 ==> DecodeMatch(inp[0], inp, 1, Zeros(off - 1)).Invalid?);
      MatchShape(inp[0], inp, 1, Zeros(off));
      assert OffsetAt(inp[0], inp, 1) == off;
    }
    if 1 <= off <= 65535 {
      var inp: seq<byte> := [128, off % 256, off / 256];
      assert OffsetAt(inp[0], inp, 1) == off;
      assert !DecodeMatch(inp[0], inp, 1, Zeros(off)).Invalid? && DecodeMatch(inp[0], inp, 1, Zeros(off - 1)).Invalid?;
    }
  }

  // ---- Every stream over the matches found -----------------------------------------------------------------

  /**
   The stream's matches are among those found: each starts where one was found, is no longer, and has
   its offset. Nothing is said of how the stream cuts its literals or where it chooses to match.
   */
  ghost predicate UsesFound(inp: seq<byte>, out: seq<byte>, mch: seq<MatchChoice>)
    decreases |inp|
  {
    if |inp| == 0 then false
    else match DecodeLiteralRun(inp, out)
      case None => false
      case Some((out1, q)) =>
        if q == |inp| then true
        else
          var r := DecodeMatch(inp[0], inp, q, out1);
          && !r.Invalid? && IsFound(inp, q, out1, r, mch)
          && (r.More? ==> UsesFound(inp[r.used..], r.out, mch))
  }

  /** The match at `q` is one that was found. */
  ghost predicate IsFound(inp: seq<byte>, q: nat, out: seq<byte>, r: TokenResult, mch: seq<MatchChoice>)
    requires 0 < q < |inp| && r == DecodeMatch(inp[0], inp, q, out) && !r.Invalid?
  {
    MatchShape(inp[0], inp, q, out);
    && |out| < |mch| && |r.out| - |out| <= mch[|out|].len && OffsetAt(inp[0], inp, q) == mch[|out|].off
  }

  /** A stream that decodes is a parse, and no shorter than the parse costs. */
  lemma {:induction false} StreamIsParse(src: seq<byte>, mch: seq<MatchChoice>, inp: seq<byte>, out: seq<byte>)
    returns (p: seq<Step>)
    requires |mch| == |src| && Decode(inp, out) == Some(src) && UsesFound(inp, out, mch)
    ensures |out| <= |src| && src[..|out|] == out
    ensures ValidParse(|src|, mch, |out|, p) && Cost(p) <= |inp|
    decreases |inp|
  {
    hide DecodeLiteralRun, DecodeMatch;
    LiteralShape(inp, out);
    var (out1, q) := DecodeLiteralRun(inp, out).value;
    var lit: nat := |out1| - |out|;
    if q == |inp| {
      p := if lit == 0 then [] else [Literals(lit)];
    } else {
      var r := DecodeMatch(inp[0], inp, q, out1);
      MatchShape(inp[0], inp, q, out1);
      var ml: nat := |r.out| - |out1|;
      var off := OffsetAt(inp[0], inp, q);
      assert r.out[..|out|] == r.out[..|out1|][..|out|] == out;
      var rest: seq<Step>;
      if r.More? {
        rest := StreamIsParse(src, mch, inp[r.used..], r.out);
        assert src[..|out|] == src[..|r.out|][..|out|];
      } else {
        rest := [];
        assert src[..|src|] == src;
      }
      p := [Match(lit, ml, off)] + rest;
      assert p[1..] == rest;
    }
  }

  /** No stream over the matches found is shorter than the cheapest parse. */
  lemma NoStreamBeats(src: seq<byte>, mch: seq<MatchChoice>, dp: seq<nat>, pick: seq<ParseChoice>, inp: seq<byte>)
    requires |src| <= INT32_MAX && Bellman(|src|, mch, dp, pick, 0)
    requires Decode(inp, []) == Some(src) && UsesFound(inp, [], mch)
    ensures dp[0] != NO_PARSE && dp[0] <= |inp|
  {
    var p := StreamIsParse(src, mch, inp, []);
    TableIsOptimal(|src|, mch, dp, pick);
  }

  /** Literals alone make a parse of up to 270 bytes. */
  lemma ShortIsPackable(n: nat, mch: seq<MatchChoice>)
    requires 1 <= n <= 270 && |mch| == n
    ensures Packable(n, mch)
  {
    assert ValidParse(n, mch, 0, [Literals(n)]);
  }

  /** What the choice of matches comes to: within 32 places in suffix order and 65535 bytes back, nothing longer. */
  lemma ChoicesAreLongest(src: seq<byte>, sa: seq<nat>, mch: seq<MatchChoice>, r: nat, x: nat)
    requires IsSuffixArray(src, sa) && ChosenFrom(src, sa, mch)
    requires r < |sa| && x < |sa| && r <= x + 32 && x <= r + 32
    requires sa[x] < sa[r] && sa[r] - sa[x] <= 65535
    ensures CommonPrefix(src, sa[r], sa[x]) >= 4 ==> mch[sa[r]].len >= CommonPrefix(src, sa[r], sa[x])
  {
    assert GoodChoice(src, sa, sa[r], r, mch[sa[r]]);
  }
}
