/**
 The streaming side of BLAKE2b without a key: the block-by-block definition in section 3.3 of
 RFC 7693, and the implementation with its lazily emptied block buffer and two-word counter
 (limine/common/crypt/blake2b.c). The compression function is a parameter: everything here holds
 for whatever chain value `H` and function `f` mix one block into it.
 */
module Blake2b {
  import opened Bytes

  const BLOCK: nat := 128

  /** Chain value, block, low and high counter word, final-block flag. */
  type Compression<!H> = (H, seq<byte>, u64, u64, bool) -> H

  // ---- Section 3.3 ---------------------------------------------------------------------------

  /** F with the byte counter as a number: its low and high words modulo 2^64. */
  function Compressed<H>(f: Compression<H>, h: H, block: seq<byte>, t: nat, last: bool): H {
    f(h, block, t % U64_LIMIT, t / U64_LIMIT % U64_LIMIT, last)
  }

  function Zeros(n: nat): seq<byte> {
    seq(n, _ => 0)
  }

  function Padded(d: seq<byte>): seq<byte>
    requires |d| <= BLOCK
  {
    d + Zeros(BLOCK - |d|)
  }

  /** The number of blocks of a message; an empty one has a single block of zeros. */
  function BlockCount(n: nat): (dd: nat)
    ensures dd >= 1 && BLOCK * (dd - 1) <= n <= BLOCK * dd
  {
    if n == 0 then 1 else (n + BLOCK - 1) / BLOCK
  }

  /** The chain value after the first `i` blocks, none of them the last. */
  function Chain<H>(f: Compression<H>, start: H, msg: seq<byte>, i: nat): H
    requires BLOCK * i <= |msg|
    decreases i
  {
    if i == 0 then start
    else Compressed(f, Chain(f, start, msg, i - 1), msg[BLOCK * (i - 1)..BLOCK * i], BLOCK * i, false)
  }

  /** The chain value after the last block: what the digest is read from. */
  function Hash<H>(f: Compression<H>, start: H, msg: seq<byte>): H {
    var n := BlockCount(|msg|) - 1;
    Compressed(f, Chain(f, start, msg, n), Padded(msg[BLOCK * n..]), |msg|, true)
  }

  /** The chain value depends only on the blocks it has consumed. */
  lemma {:induction false} ChainOfPrefix<H>(f: Compression<H>, start: H, msg: seq<byte>, more: seq<byte>, i: nat)
    requires BLOCK * i <= |msg|
    ensures Chain(f, start, msg + more, i) == Chain(f, start, msg, i)
    decreases i
  {
    if i > 0 {
      ChainOfPrefix(f, start, msg, more, i - 1);
      assert (msg + more)[BLOCK * (i - 1)..BLOCK * i] == msg[BLOCK * (i - 1)..BLOCK * i];
    }
  }

  /** At most one block beyond `n` full blocks, and not none unless `n` is zero: `n` precede the last. */
  lemma LastBlock(len: nat, n: nat, rest: nat)
    requires len == BLOCK * n + rest && rest <= BLOCK
    requires rest == 0 ==> n == 0
    ensures BlockCount(len) - 1 == n
  {
  }

  /**
   The message from its front: a block of 128 bytes at a time while more than that is left, then the
   rest with zeros behind it; `n` bytes came before.
   */
  function FromFront<H>(f: Compression<H>, h: H, rest: seq<byte>, n: nat): H
    decreases |rest|
  {
    if |rest| > 128 then
      FromFront(f, f(h, rest[..128], (n + 128) % 0x1_0000_0000_0000_0000,
                     (n + 128) / 0x1_0000_0000_0000_0000 % 0x1_0000_0000_0000_0000, false), rest[128..], n + 128)
    else f(h, rest + seq(128 - |rest|, _ => 0), (n + |rest|) % 0x1_0000_0000_0000_0000,
           (n + |rest|) / 0x1_0000_0000_0000_0000 % 0x1_0000_0000_0000_0000, true)
  }

  /** The chain of blocks and the padded last one are the message taken from its front. */
  lemma HashIsFromFront<H>(f: Compression<H>, start: H, msg: seq<byte>)
    ensures Hash(f, start, msg) == FromFront(f, start, msg, 0)
  {
    assert msg[BLOCK * 0..] == msg;
    FrontFrom(f, start, msg, 0);
  }

  lemma {:induction false} FrontFrom<H>(f: Compression<H>, start: H, msg: seq<byte>, i: nat)
    requires i < BlockCount(|msg|)
    ensures BLOCK * i <= |msg|
    ensures Hash(f, start, msg) == FromFront(f, Chain(f, start, msg, i), msg[BLOCK * i..], BLOCK * i)
    decreases BlockCount(|msg|) - i
  {
    hide Hash, FromFront, Padded;
    var h, rest := Chain(f, start, msg, i), msg[BLOCK * i..];
    if i < BlockCount(|msg|) - 1 {
      assert rest[..128] == msg[BLOCK * i..BLOCK * (i + 1)];
      assert rest[128..] == msg[BLOCK * (i + 1)..];
      FrontBlock(f, h, rest, BLOCK * i);
      FrontFrom(f, start, msg, i + 1);
    } else {
      FrontRest(f, h, rest, BLOCK * i);
      HashIs(f, start, msg, i, |msg| % U64_LIMIT, |msg| / U64_LIMIT % U64_LIMIT);
    }
  }

  lemma FrontBlock<H>(f: Compression<H>, h: H, rest: seq<byte>, n: nat)
    requires |rest| > 128
    ensures FromFront(f, h, rest, n) == FromFront(f, Compressed(f, h, rest[..128], n + 128, false), rest[128..], n + 128)
  {
  }

  lemma FrontRest<H>(f: Compression<H>, h: H, rest: seq<byte>, n: nat)
    requires |rest| <= 128
    ensures FromFront(f, h, rest, n) == Compressed(f, h, Padded(rest), n + |rest|, true)
  {
    assert Zeros(BLOCK - |rest|) == seq(128 - |rest|, _ => 0);
  }

  // ---- The implementation --------------------------------------------------------------------

  /** Two 64-bit words that count bytes modulo 2^128. */
  ghost predicate Counts(t0: u64, t1: u64, n: nat) {
    t0 == n % U64_LIMIT && t1 == n / U64_LIMIT % U64_LIMIT
  }

  /** The hash in terms of the two counter words. */
  lemma HashIs<H>(f: Compression<H>, start: H, msg: seq<byte>, n: nat, t0: u64, t1: u64)
    requires n == BlockCount(|msg|) - 1 && Counts(t0, t1, |msg|)
    ensures Hash(f, start, msg) == f(Chain(f, start, msg, n), Padded(msg[BLOCK * n..]), t0, t1, true)
  {
    hide Chain, Padded;
  }

  /** `blake2b_increment_counter`: the carry is read off the wrapped sum. */
  method IncrementCounter(t0: u64, t1: u64, inc: u64) returns (r0: u64, r1: u64)
    ensures forall n: nat :: Counts(t0, t1, n) ==> Counts(r0, r1, n + inc)
  {
    r0 := (t0 + inc) % U64_LIMIT;
    r1 := (t1 + (if r0 < inc then 1 else 0)) % U64_LIMIT;
    forall n: nat | Counts(t0, t1, n) ensures Counts(r0, r1, n + inc) { CarryIsExact(n, inc); }
  }

  lemma CarryIsExact(n: nat, inc: u64)
    ensures (n + inc) % U64_LIMIT == (n % U64_LIMIT + inc) % U64_LIMIT
    ensures (n + inc) / U64_LIMIT == n / U64_LIMIT + (if (n % U64_LIMIT + inc) % U64_LIMIT < inc then 1 else 0)
  {
    var q, r := n / U64_LIMIT, n % U64_LIMIT;
    assert n == q * U64_LIMIT + r;
    if r + inc >= U64_LIMIT {
      assert n + inc == (q + 1) * U64_LIMIT + (r + inc - U64_LIMIT);
    } else {
      assert n + inc == q * U64_LIMIT + (r + inc);
    }
  }

  class State<!H(0)> {
    const f: Compression<H>
    const start: H
    var h: H
    var t0: u64
    var t1: u64
    var last: bool
    const buf: array<byte>
    var bufLen: nat
    /** Everything absorbed so far. */
    ghost var absorbed: seq<byte>

    /** Full blocks compressed so far. */
    ghost var done: nat

    ghost predicate Shape()
      reads `bufLen
    {
      buf.Length == BLOCK && bufLen <= BLOCK
    }

    /**
     All but the buffered tail has been compressed, and the tail is empty only for the empty
     message: the block that may turn out to be the last is always held back.
     */
    ghost predicate Valid()
      reads this, buf
    {
      && Shape()
      && |absorbed| == BLOCK * done + bufLen
      && (bufLen == 0 ==> absorbed == [])
      && buf[..bufLen] == absorbed[BLOCK * done..]
      && h == Chain(f, start, absorbed, done)
      && Counts(t0, t1, BLOCK * done)
      && !last
    }

    /** `blake2b_init`, with the parameter block already folded into `start`. */
    constructor (f: Compression<H>, start: H)
      ensures Valid() && absorbed == [] && this.f == f && this.start == start && fresh(buf)
    {
      this.f, this.start, h := f, start, start;
      t0, t1, last, bufLen, done := 0, 0, false, 0, 0;
      buf := new byte[BLOCK](_ => 0);
      absorbed := [];
    }

    // The block methods run on any state; what they promise of the chain value is for a state that is
    // `sound`, not yet finalized and standing at block `n` of `msg`.

    /** Count a full block and mix it in. */
    method CompressBlock(block: seq<byte>, ghost sound: bool, ghost msg: seq<byte>, ghost n: nat)
      requires sound ==> BLOCK * (n + 1) <= |msg| && block == msg[BLOCK * n..BLOCK * (n + 1)]
      requires sound ==> h == Chain(f, start, msg, n) && Counts(t0, t1, BLOCK * n) && !last
      modifies `h, `t0, `t1
      ensures sound ==> h == Chain(f, start, msg, n + 1) && Counts(t0, t1, BLOCK * (n + 1))
    {
      t0, t1 := IncrementCounter(t0, t1, BLOCK);
      h := f(h, block, t0, t1, last);
    }

    /** The block loop: stops with at least one byte and at most one block left over. */
    method CompressFull(inp: seq<byte>, from: nat, ghost sound: bool, ghost msg: seq<byte>, ghost n: nat)
      returns (pos: nat, ghost m: nat)
      requires from < |inp|
      requires sound ==> |inp| <= |msg| && inp == msg[|msg| - |inp|..] && |msg| - |inp| + from == BLOCK * n
      requires sound ==> h == Chain(f, start, msg, n) && Counts(t0, t1, BLOCK * n) && !last
      modifies `h, `t0, `t1
      ensures from <= pos < |inp| && |inp| - pos <= BLOCK
      ensures sound ==> |msg| - |inp| + pos == BLOCK * m
      ensures sound ==> h == Chain(f, start, msg, m) && Counts(t0, t1, BLOCK * m)
    {
      hide Chain, Counts;
      pos, m := from, n;
      while |inp| - pos > BLOCK
        invariant from <= pos < |inp|
        invariant sound ==> |msg| - |inp| + pos == BLOCK * m
        invariant sound ==> h == Chain(f, start, msg, m) && Counts(t0, t1, BLOCK * m)
      {
        assert sound ==> inp[pos..pos + BLOCK] == msg[BLOCK * m..BLOCK * (m + 1)];
        CompressBlock(inp[pos..pos + BLOCK], sound, msg, m);
        m := m + 1;
        pos := pos + BLOCK;
      }
    }

    /** Append to the block buffer. */
    method Buffer(d: seq<byte>)
      requires buf.Length == BLOCK && bufLen + |d| <= BLOCK
      modifies `bufLen, buf
      ensures bufLen == old(bufLen) + |d| && buf[..bufLen] == old(buf[..bufLen]) + d
    {
      forall k | 0 <= k < |d| { buf[bufLen + k] := d[k]; }
      bufLen := bufLen + |d|;
    }

    /** Fill up the buffer and empty it, then all but the last block of what is left of the input. */
    method Spill(inp: seq<byte>, ghost sound: bool, ghost msg: seq<byte>) returns (pos: nat, ghost m: nat)
      requires Shape() && |inp| > BLOCK - bufLen
      requires sound ==> Valid() && msg == absorbed + inp && h == Chain(f, start, msg, done)
      modifies `h, `t0, `t1, `bufLen, buf
      ensures bufLen == 0 && pos < |inp| && |inp| - pos <= BLOCK
      ensures sound ==> |msg| - |inp| + pos == BLOCK * m
      ensures sound ==> h == Chain(f, start, msg, m) && Counts(t0, t1, BLOCK * m)
    {
      hide Chain, Counts;
      var fill := BLOCK - bufLen;
      Buffer(inp[..fill]);
      assert buf[..] == buf[..BLOCK];
      assert sound ==> buf[..] == msg[BLOCK * done..BLOCK * (done + 1)];
      bufLen := 0;
      CompressBlock(buf[..], sound, msg, done);
      pos, m := CompressFull(inp, fill, sound, msg, done + 1);
    }

    /**
     `blake2b_update`: however the input is cut, the state is that of the concatenation. On a state
     that has been finalized it still runs, and stays in its buffer.
     */
    method Update(inp: seq<byte>)
      requires Shape()
      modifies this, buf
      ensures Shape()
      ensures old(Valid()) ==> Valid() && absorbed == old(absorbed) + inp
    {
      hide Chain, Counts;
      if inp == [] {
        assert absorbed + inp == absorbed;
        return;
      }
      ghost var sound, msg, n := Valid(), absorbed + inp, done;
      if sound { ChainOfPrefix(f, start, absorbed, inp, n); }
      var pos := 0;
      if |inp| > BLOCK - bufLen { pos, n := Spill(inp, sound, msg); }
      Buffer(inp[pos..]);
      absorbed, done := msg, n;
      assert sound ==> buf[..bufLen] == msg[BLOCK * n..];
    }

    /** Fill the rest of the block with zeros. */
    method Pad()
      requires Shape()
      modifies buf
      ensures buf[..] == Padded(old(buf[..bufLen]))
    {
      forall k | bufLen <= k < BLOCK { buf[k] := 0; }
    }

    /** `blake2b_final`: the digest of everything absorbed. */
    method Final() returns (digest: H)
      requires Valid()
      modifies this, buf
      ensures digest == Hash(f, start, old(absorbed)) && h == digest && Shape()
    {
      hide Chain, Counts, Hash, BlockCount, Padded;
      ghost var msg, n := absorbed, done;
      LastBlock(|msg|, n, bufLen);
      t0, t1 := IncrementCounter(t0, t1, bufLen);
      assert Counts(t0, t1, BLOCK * n + bufLen);
      last := true;
      Pad();
      HashIs(f, start, msg, n, t0, t1);
      h := f(h, buf[..], t0, t1, last);
      digest := h;
    }
  }

  ghost function Concat(parts: seq<seq<byte>>): seq<byte> {
    if parts == [] then [] else Concat(parts[..|parts| - 1]) + parts[|parts| - 1]
  }

  /** Any split of a message hashes to the hash of the whole message. */
  method HashParts<H(0)>(f: Compression<H>, start: H, parts: seq<seq<byte>>) returns (digest: H)
    ensures digest == Hash(f, start, Concat(parts)) == FromFront(f, start, Concat(parts), 0)
  {
    var state := new State(f, start);
    for i := 0 to |parts|
      invariant state.Valid() && state.absorbed == Concat(parts[..i])
      invariant state.f == f && state.start == start && fresh(state) && fresh(state.buf)
    {
      assert parts[..i + 1][..i] == parts[..i];
      state.Update(parts[i]);
    }
    assert parts[..|parts|] == parts;
    digest := state.Final();
    HashIsFromFront(f, start, Concat(parts));
  }

  // ---- The hashing file filter -----------------------------------------------------------------

  /** A file handle that hashes what is read through it; only sequential reads are allowed. */
  class Filter<!H(0, ==)> {
    const source: seq<byte>
    const state: State<H>
    var pos: nat
    var finalized: bool
    var digest: H
    /** How much had been read when the hash was taken. */
    ghost var hashedAt: nat

    ghost predicate Valid()
      reads this, state, state.buf
    {
      && pos <= |source| && state.Shape()
      && (!finalized ==> state.Valid() && state.absorbed == source[..pos])
      && (finalized ==> hashedAt <= pos && digest == Hash(state.f, state.start, source[..hashedAt]))
    }

    constructor (source: seq<byte>, f: Compression<H>, start: H)
      ensures Valid() && pos == 0 && !finalized && this.source == source
      ensures fresh(state) && fresh(state.buf) && state.f == f && state.start == start
    {
      this.source := source;
      this.state := new State(f, start);
      this.pos, this.finalized := 0, false;
      this.digest := start;
      this.hashedAt := 0;
    }

    /** `blake2b_read`; `None` is a panic, on a seek here or out of bounds in `fread`. Reads after the hash was taken leave it alone. */
    method Read(loc: nat, count: nat) returns (data: Option<seq<byte>>)
      requires Valid()
      modifies this, state, state.buf
      ensures Valid() && finalized == old(finalized) && digest == old(digest) && hashedAt == old(hashedAt)
      ensures data.None? <==> loc != old(pos) || loc + count > |source|
      ensures data.None? ==> pos == old(pos)
      ensures data.Some? ==> pos == old(pos) + |data.value| && |data.value| <= count
                             && data.value == source[old(pos)..pos]
    {
      hide Chain, Counts, Hash;
      if loc != pos { return None; }
      if count > |source| - loc { return None; }
      var got :| 0 <= got <= count;
      var d := source[loc..loc + got];
      state.Update(d);
      assert source[..pos] + d == source[..pos + got];
      pos := pos + got;
      return Some(d);
    }

    /**
     `blake2b_check_hash`: whether the reference is the hash of what had been read when the hash
     was first asked for; asking again gives the same digest.
     */
    method CheckHash(reference: H) returns (matches: bool)
      requires Valid()
      modifies this, state, state.buf
      ensures Valid() && finalized && pos == old(pos)
      ensures hashedAt == if old(finalized) then old(hashedAt) else pos
      ensures matches <==> reference == Hash(state.f, state.start, source[..hashedAt])
    {
      if !finalized {
        digest := state.Final();
        finalized, hashedAt := true, pos;
      }
      matches := digest == reference;
    }
  }
}
