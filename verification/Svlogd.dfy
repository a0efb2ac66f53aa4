/**
 Log rotation underneath an output buffer (runit/src/svlogd.c, runit/src/buffer_put.c): the
 buffer's write operation may rotate the log, and rotating flushes the same buffer.
 */
module Svlogd {
  import opened Bytes
  import opened Counting

  const BUFFER_OUTSIZE: nat := 8192
  const NEWLINE: byte := 10

  /** `unsigned long` subtraction. */
  function SubU64(a: u64, b: u64): u64 {
    if a >= b then a - b else a - b + U64_LIMIT
  }

  /** The archived files in the order they were put away. */
  ghost function Archived(order: seq<nat>, files: map<nat, seq<byte>>): seq<byte>
    requires forall i :: 0 <= i < |order| ==> order[i] in files
  {
    if order == [] then []
    else Archived(order[..|order| - 1], files) + files[order[|order| - 1]]
  }

  /** A file under a name not in the order does not change what is archived. */
  lemma {:induction false} ArchivedFrame(order: seq<nat>, files: map<nat, seq<byte>>, name: nat, content: seq<byte>)
    requires forall i :: 0 <= i < |order| ==> order[i] in files
    requires name !in order
    ensures Archived(order, files[name := content]) == Archived(order, files)
    decreases |order|
  {
    if order != [] {
      ArchivedFrame(order[..|order| - 1], files, name, content);
    }
  }

  lemma ArchivedAppend(order: seq<nat>, files: map<nat, seq<byte>>, name: nat, content: seq<byte>)
    requires forall i :: 0 <= i < |order| ==> order[i] in files
    requires name !in order
    ensures Archived(order + [name], files[name := content]) == Archived(order, files) + content
  {
    ArchivedFrame(order, files, name, content);
    assert (order + [name])[..|order|] == order;
  }

  lemma ArchivedReplace(order: seq<nat>, files: map<nat, seq<byte>>, content: seq<byte>)
    requires forall i :: 0 <= i < |order| ==> order[i] in files
    requires order != [] && Distinct(order)
    ensures var last := order[|order| - 1];
            |Archived(order, files[last := content])| == |Archived(order, files)| - |files[last]| + |content|
  {
    var m := |order| - 1;
    assert order[m] !in order[..m];
    ArchivedFrame(order[..m], files, order[m], content);
  }

  // ---- When a flush rotates ------------------------------------------------------------------------------

  /** How much of `len` bytes the `k`-th write accepts: anything from one byte to all of them. */
  function Taken(accept: nat -> nat, k: nat, len: nat): (i: nat)
    requires len > 0
    ensures 0 < i <= len
  {
    1 + accept(k) % len
  }

  /** What `buffer_pwrite` offers of `len` bytes to a file that is not full. */
  function Offered(sizemax: u64, size: nat, len: nat): nat {
    if 0 < sizemax && size <= sizemax && sizemax - size < len then sizemax - size else len
  }

  /** A file of this size is rotated after the byte `last`. */
  predicate FullEnough(sizemax: u64, linemax: u64, size: nat, last: byte) {
    sizemax > 0 && last == NEWLINE && size >= SubU64(sizemax, linemax)
  }

  /** Writing `data` from the `k`-th write on rotates a file of this size. */
  ghost function Rotates(accept: nat -> nat, sizemax: u64, linemax: u64, k: nat, size: nat, data: seq<byte>): bool
    decreases |data|
  {
    if data == [] || sizemax == 0 then false
    else if size >= sizemax then true
    else
      var i := Taken(accept, k, Offered(sizemax, size, |data|));
      FullEnough(sizemax, linemax, size + i, data[i - 1])
      || Rotates(accept, sizemax, linemax, k + 1, size + i, data[i..])
  }

  /** In plain numbers: a line ends the file within the longest line of the limit; wrapped where the limit is shorter. */
  lemma FullEnoughIs(sizemax: u64, linemax: u64, size: nat, last: byte)
    ensures FullEnough(sizemax, linemax, size, last) <==>
              sizemax > 0 && last == 10
              && size + linemax >= (if linemax <= sizemax then sizemax else sizemax + 0x1_0000_0000_0000_0000)
  {
  }

  /** Well below the limit nothing rotates, whatever is written and however it is cut. */
  lemma NoEarlyRotation(accept: nat -> nat, sizemax: u64, linemax: u64, k: nat, size: nat, data: seq<byte>)
    requires sizemax == 0 || size + |data| + linemax < sizemax
    ensures !Rotates(accept, sizemax, linemax, k, size, data)
  {
    hide FullEnough, Rotates;
    forall j | 0 <= j < |data| ensures !FullEnough(sizemax, linemax, size + j + 1, data[j]) {
      FullEnoughIs(sizemax, linemax, size + j + 1, data[j]);
    }
    if Rotates(accept, sizemax, linemax, k, size, data) { RotatingMay(accept, sizemax, linemax, k, size, data); }
  }

  /** The data overfills the file, or ends it at a line's end where it is full enough. */
  predicate MustRotate(sizemax: u64, linemax: u64, size: nat, data: seq<byte>) {
    sizemax > 0 && data != []
    && (size + |data| > sizemax || FullEnough(sizemax, linemax, size + |data|, data[|data| - 1]))
  }

  /** The data overfills the file, or some line in it ends where the file is full enough. */
  ghost predicate MayRotate(sizemax: u64, linemax: u64, size: nat, data: seq<byte>) {
    sizemax > 0 && data != []
    && (size + |data| > sizemax
        || exists k :: 0 <= k < |data| && FullEnough(sizemax, linemax, size + k + 1, data[k]))
  }

  lemma {:induction false} MustRotates(accept: nat -> nat, sizemax: u64, linemax: u64, k: nat, size: nat, data: seq<byte>)
    requires MustRotate(sizemax, linemax, size, data)
    ensures Rotates(accept, sizemax, linemax, k, size, data)
    decreases |data|
  {
    hide FullEnough, Taken;
    if size < sizemax {
      var i := Taken(accept, k, Offered(sizemax, size, |data|));
      var rest := data[i..];
      if i < |data| {
        assert rest[|rest| - 1] == data[|data| - 1] && size + i + |rest| == size + |data|;
        MustRotates(accept, sizemax, linemax, k + 1, size + i, rest);
      }
    }
  }

  lemma {:induction false} RotatingMay(accept: nat -> nat, sizemax: u64, linemax: u64, k: nat, size: nat, data: seq<byte>)
    requires Rotates(accept, sizemax, linemax, k, size, data)
    ensures MayRotate(sizemax, linemax, size, data)
    decreases |data|
  {
    if size < sizemax && size + |data| <= sizemax {
      var i := Taken(accept, k, |data|);
      if !FullEnough(sizemax, linemax, size + i, data[i - 1]) {
        RotatingMay(accept, sizemax, linemax, k + 1, size + i, data[i..]);
        var j :| 0 <= j < |data[i..]| && FullEnough(sizemax, linemax, size + i + j + 1, data[i..][j]);
        assert FullEnough(sizemax, linemax, size + (i + j) + 1, data[i + j]);
      } else {
        assert FullEnough(sizemax, linemax, size + (i - 1) + 1, data[i - 1]);
      }
    }
  }

  /** A write that accepts `j + 1` bytes ends where the file is full enough, or takes everything. */
  lemma CutAt(accept: nat -> nat, sizemax: u64, linemax: u64, k: nat, size: nat, data: seq<byte>, j: nat)
    requires j < |data| && accept(k) == j && sizemax > 0 && size + |data| <= sizemax
    requires FullEnough(sizemax, linemax, size + j + 1, data[j]) || j == |data| - 1
    ensures Rotates(accept, sizemax, linemax, k, size, data) == FullEnough(sizemax, linemax, size + j + 1, data[j])
  {
    hide FullEnough;
    SmallMod(j, |data|);
    assert Taken(accept, k, |data|) == j + 1;
    hide Taken;
    NothingRotates(accept, sizemax, linemax, k + 1, size + |data|);
    assert j == |data| - 1 ==> data[j + 1..] == [];
  }

  lemma SmallMod(x: nat, m: nat)
    requires x < m
    ensures x % m == x
  {
  }

  lemma NothingRotates(accept: nat -> nat, sizemax: u64, linemax: u64, k: nat, size: nat)
    ensures !Rotates(accept, sizemax, linemax, k, size, [])
  {
  }

  /** A flush rotates however its writes are cut if and only if it must. */
  lemma RotatesAlways(sizemax: u64, linemax: u64, k: nat, size: nat, data: seq<byte>)
    ensures (forall accept: nat -> nat :: Rotates(accept, sizemax, linemax, k, size, data))
            <==> MustRotate(sizemax, linemax, size, data)
  {
    hide Rotates, FullEnough;
    if MustRotate(sizemax, linemax, size, data) {
      forall accept: nat -> nat ensures Rotates(accept, sizemax, linemax, k, size, data) {
        MustRotates(accept, sizemax, linemax, k, size, data);
      }
    } else {
      var whole: nat -> nat := _ => if data == [] then 0 else |data| - 1;
      if data == [] || sizemax == 0 {
        UnlimitedNever(whole, sizemax, linemax, k, size, data);
      } else {
        CutAt(whole, sizemax, linemax, k, size, data, |data| - 1);
      }
    }
  }

  lemma UnlimitedNever(accept: nat -> nat, sizemax: u64, linemax: u64, k: nat, size: nat, data: seq<byte>)
    requires data == [] || sizemax == 0
    ensures !Rotates(accept, sizemax, linemax, k, size, data)
  {
  }

  /** Some way of cutting the writes of a flush makes it rotate if and only if it may. */
  lemma RotatesSometimes(sizemax: u64, linemax: u64, k: nat, size: nat, data: seq<byte>)
    ensures (exists accept: nat -> nat :: Rotates(accept, sizemax, linemax, k, size, data))
            <==> MayRotate(sizemax, linemax, size, data)
  {
    hide Rotates, FullEnough;
    if accept: nat -> nat :| Rotates(accept, sizemax, linemax, k, size, data) {
      RotatingMay(accept, sizemax, linemax, k, size, data);
    }
    if MayRotate(sizemax, linemax, size, data) {
      if size + |data| > sizemax {
        var any: nat -> nat := n => n;
        MustRotates(any, sizemax, linemax, k, size, data);
        assert Rotates(any, sizemax, linemax, k, size, data);
      } else {
        var j :| 0 <= j < |data| && FullEnough(sizemax, linemax, size + j + 1, data[j]);
        var cut: nat -> nat := _ => j;
        CutAt(cut, sizemax, linemax, k, size, data, j);
      }
    }
  }

  // ---- The log directory -----------------------------------------------------------------------------------

  /** An open log directory without a processor, and the buffer in front of it. */
  class LogDir {
    const x: array<byte>
    var p: nat
    const linemax: u64
    const sizemax: u64
    var size: nat
    /** The file `current`. */
    var current: seq<byte>
    /** All other files of the directory, by name. */
    var files: map<nat, seq<byte>>
    /** The name the next rotation will use. */
    var fnsave: nat
    /** How many writes there have been, and how much each is going to accept. */
    var writes: nat
    const accept: nat -> nat
    /** Names used by rotations of this run, oldest first. */
    ghost var order: seq<nat>
    /** Whether `current` was created by this run. */
    ghost var freshCurrent: bool
    /** Archives whose file was created by this run. */
    ghost var created: set<nat>

    ghost predicate Valid()
      reads this
    {
      && p <= x.Length && 0 < x.Length
      && size == |current|
      && (forall i :: 0 <= i < |order| ==> order[i] in files)
      && Distinct(order)
      && (sizemax > 0 && freshCurrent ==> |current| <= sizemax)
      && created <= files.Keys
      && (order != [] ==> freshCurrent) && (forall k :: 1 <= k < |order| ==> order[k] in created)
      && (sizemax > 0 ==> forall n :: n in created ==> |files[n]| <= sizemax)
    }

    /** Everything that has reached the directory, in order. */
    ghost function Written(): seq<byte>
      requires Valid()
      reads this
    {
      Archived(order, files) + current
    }

    /** ... and what the buffer still holds. */
    ghost function Total(): seq<byte>
      requires Valid()
      reads this, x
    {
      Written() + x[..p]
    }

    /** `logdir_open` on a directory whose `current` is continued. */
    constructor (buflen: nat, linemax: u64, sizemax: u64, current: seq<byte>, files: map<nat, seq<byte>>, accept: nat -> nat)
      requires buflen > 0
      ensures Valid() && p == 0 && x.Length == buflen && fresh(x)
      ensures this.current == current && order == [] && this.sizemax == sizemax && Total() == current
      ensures created == {} && !freshCurrent
    {
      x := new byte[buflen](_ => 0);
      p, this.linemax, this.sizemax := 0, linemax, sizemax;
      this.current, size, this.files, fnsave, order := current, |current|, files, 0, [];
      freshCurrent, created := false, {};
      this.accept, writes := accept, 0;
      new;
      assert [] + current + x[..0] == current;
    }

    /** A line that ends the file leaves it below the limit by more than a line's length. */
    ghost predicate Settled()
      reads `current
    {
      sizemax > 0 && current != [] && current[|current| - 1] == 10 ==>
        |current| + linemax < (if linemax <= sizemax then sizemax else sizemax + 0x1_0000_0000_0000_0000)
    }

    /** The name has been used up: it belongs to the latest archive. */
    ghost predicate NameUsed()
      reads this
    {
      && order != [] && order[|order| - 1] == fnsave
      && fnsave in files && files[fnsave] != []
    }

    /** No rotation since the state described by the arguments. */
    ghost predicate NotRotated(order0: seq<nat>, files0: map<nat, seq<byte>>, fnsave0: nat)
      reads this
    {
      order == order0 && files == files0 && fnsave == fnsave0
    }

    /** Writing `data` now would rotate. */
    ghost predicate WouldRotate(data: seq<byte>)
      reads `writes, `size
    {
      Rotates(accept, sizemax, linemax, writes, size, data)
    }

    /**
     `rotate`. The name is picked before the flush, and a rotation nested inside that flush uses it
     up: the outer rename then replaces the nested archive and its bytes are lost. That happens
     exactly when there is something buffered, the file is not empty and writing the buffer rotates.
     */
    method Rotate() returns (ghost clobbered: bool)
      requires Valid()
      modifies this
      ensures Valid()
      ensures !clobbered ==> Total() == old(Total())
      ensures clobbered ==> |Total()| < |old(Total())|
      ensures clobbered <==> old(p) > 0 && old(size) > 0 && old(WouldRotate(x[..p]))
      ensures old(size) > 0 ==> p == 0 && size == 0 && current == [] && freshCurrent && (clobbered || NameUsed())
      ensures old(Settled()) ==> Settled()
      ensures old(size) == 0 ==> size == 0 && current == old(current) && p == old(p) && freshCurrent == old(freshCurrent)
      decreases p, 3
    {
      clobbered := false;
      FreshExists(files.Keys);
      var name: nat :| name !in files;
      fnsave := name;
      if size > 0 {
        Flush();
        clobbered := fnsave in files;
        Rename();
        assert Total() == Written();
      }
    }

    /** Put `current` away under the chosen name, replacing whatever has it, and start a new one. */
    method Rename()
      requires Valid() && p == 0
      requires if fnsave in files then NameUsed() else current != []
      modifies `current, `size, `files, `order, `freshCurrent, `created
      ensures Valid() && size == 0 && current == [] && freshCurrent
      ensures old(fnsave !in files) ==> Written() == old(Written()) && NameUsed()
      ensures old(fnsave in files) ==> |Written()| < |old(Written())|
    {
      if fnsave !in files {
        ArchivedAppend(order, files, fnsave, current);
        order := order + [fnsave];
      } else {
        ArchivedReplace(order, files, current);
      }
      MoveCurrent();
    }

    /** The rename itself, and the new empty file. */
    method MoveCurrent()
      requires size == |current|
      requires created <= files.Keys
      requires sizemax > 0 && freshCurrent ==> |current| <= sizemax
      requires sizemax > 0 ==> forall n :: n in created ==> |files[n]| <= sizemax
      modifies `current, `size, `files, `freshCurrent, `created
      ensures files == old(files)[fnsave := old(current)]
      ensures current == [] && size == 0 && freshCurrent
      ensures created <= files.Keys
      ensures created == if old(freshCurrent) then old(created) + {fnsave} else old(created) - {fnsave}
      ensures sizemax > 0 ==> forall n :: n in created ==> |files[n]| <= sizemax
    {
      created := if freshCurrent then created + {fnsave} else created - {fnsave};
      files := files[fnsave := current];
      current, size, freshCurrent := [], 0, true;
    }

    /** `buffer_flush`: the buffer is marked empty before its bytes are written. */
    method Flush()
      requires Valid()
      modifies this
      ensures Valid() && p == 0
      ensures Written() == old(Written()) + old(x[..p])
      ensures old(p) == 0 ==> unchanged(this)
      ensures old(size) > 0 ==> size > 0 || NameUsed()
      ensures old(Settled()) ==> Settled()
      ensures old(p) > 0 ==> if old(WouldRotate(x[..p])) then NameUsed() else NotRotated(old(order), old(files), old(fnsave))
      decreases p, 2
    {
      var n := p;
      if n == 0 {
        assert Written() + x[..0] == Written();
        return;
      }
      p := 0;
      AllWrite(x[..n]);
    }

    /** `allwrite`: writes until nothing is left. */
    method AllWrite(data: seq<byte>)
      requires Valid() && p == 0
      modifies this
      ensures Valid() && p == 0 && Written() == old(Written()) + data
      ensures if old(WouldRotate(data)) then NameUsed() else NotRotated(old(order), old(files), old(fnsave))
      ensures !old(WouldRotate(data)) ==> size == old(size) + |data|
      ensures old(Settled()) ==> Settled()
      decreases 0, 5
    {
      hide Archived, Distinct, Rotates;
      var done := 0;
      assert data[..0] == [] && data[0..] == data;
      ghost var rotated := false;
      while done < |data|
        invariant 0 <= done <= |data|
        invariant Valid() && p == 0
        invariant Written() == old(Written()) + data[..done]
        invariant old(Settled()) ==> Settled()
        invariant if rotated then NameUsed() && old(WouldRotate(data))
                  else NotRotated(old(order), old(files), old(fnsave)) && size == old(size) + done
                       && WouldRotate(data[done..]) == old(WouldRotate(data))
      {
        var rest := data[done..];
        var w;
        ghost var r;
        w, r := PWrite(rest);
        rotated := rotated || r;
        assert rest[w..] == data[done + w..];
        assert data[..done] + rest[..w] == data[..done + w];
        done := done + w;
      }
      assert data[..|data|] == data && data[|data|..] == [];
      NothingRotates(accept, sizemax, linemax, writes, size);
    }

    /** `buffer_pwrite`: rotates a full file first, never overfills one, rotates early after a line. */
    method PWrite(s: seq<byte>) returns (i: nat, ghost rotated: bool)
      requires Valid() && p == 0 && s != []
      modifies this
      ensures Valid() && p == 0 && 0 < i <= |s|
      ensures Written() == old(Written()) + s[..i]
      ensures if rotated then NameUsed() && old(WouldRotate(s))
              else NotRotated(old(order), old(files), old(fnsave)) && size == old(size) + i
                   && WouldRotate(s[i..]) == old(WouldRotate(s))
      ensures sizemax > 0 ==> size <= sizemax
      ensures Settled()
      decreases 0, 4
    {
      hide Archived, Distinct;
      ghost var c;
      rotated := false;
      assert Total() == Written();
      if sizemax != 0 && size >= sizemax {
        c := Rotate();
        rotated := true;
        assert Total() == Written();
      }
      i := Taken(accept, writes, Offered(sizemax, size, |s|));
      Write(s[..i]);
      assert Total() == Written();
      if FullEnough(sizemax, linemax, size, s[i - 1]) {
        c := Rotate();
        rotated := true;
        assert Total() == Written();
      }
    }

    /** The system call: it appends what it accepts. */
    method Write(s: seq<byte>)
      requires Valid() && (sizemax > 0 ==> size + |s| <= sizemax)
      modifies `current, `size, `writes
      ensures Valid() && Written() == old(Written()) + s
      ensures current == old(current) + s && size == old(size) + |s| && writes == old(writes) + 1
    {
      assert Archived(order, files) + (current + s) == Archived(order, files) + current + s;
      current := current + s;
      size := size + |s|;
      writes := writes + 1;
    }

    /** Append to the buffer's array. */
    method Fill(data: seq<byte>)
      requires Valid() && p + |data| <= x.Length
      modifies `p, x
      ensures Valid() && p == old(p) + |data| && Written() == old(Written())
      ensures Total() == old(Total()) + data
    {
      forall k | 0 <= k < |data| { x[p + k] := data[k]; }
      p := p + |data|;
      assert x[..p] == old(x[..p]) + data;
    }

    /** `buffer_put`: large input goes around the buffer. */
    method Put(data: seq<byte>)
      requires Valid()
      modifies this, x
      ensures Valid() && Total() == old(Total()) + data
      ensures |data| <= x.Length - old(p) ==> Written() == old(Written())
      ensures x.Length - old(p) < |data| <= x.Length ==> Written() == old(Total())
      ensures old(Settled()) ==> Settled()
    {
      hide Archived, Distinct, Rotates, Settled;
      var pos := 0;
      if |data| > x.Length - p { pos := MakeRoom(data); }
      assert Total() == old(Total()) + data[..pos];
      assert data[..pos] + data[pos..] == data;
      Fill(data[pos..]);
    }

    /** What does not fit goes out: first what is buffered, then all that the buffer cannot hold. */
    method MakeRoom(data: seq<byte>) returns (pos: nat)
      requires Valid()
      modifies this
      ensures Valid() && p == 0 && pos <= |data| <= pos + x.Length && (|data| <= x.Length ==> pos == 0)
      ensures Written() == Total() == old(Total()) + data[..pos]
      ensures old(Settled()) ==> Settled()
    {
      hide Archived, Distinct, Rotates, Settled;
      Flush();
      pos := WriteLarge(data);
      assert Total() == Written();
    }

    /** The part of `buffer_put` that writes around the empty buffer, until the rest fits. */
    method WriteLarge(data: seq<byte>) returns (pos: nat)
      requires Valid() && p == 0
      modifies this
      ensures Valid() && p == 0 && pos <= |data| <= pos + x.Length && (|data| <= x.Length ==> pos == 0)
      ensures Written() == old(Written()) + data[..pos]
      ensures old(Settled()) ==> Settled()
    {
      hide Archived, Distinct, Rotates, Settled;
      var n := if x.Length < BUFFER_OUTSIZE then BUFFER_OUTSIZE else x.Length;
      pos := 0;
      while |data| - pos > x.Length
        invariant 0 <= pos <= |data| && n > 0 && (|data| <= x.Length ==> pos == 0)
        invariant Valid() && p == 0 && (old(Settled()) ==> Settled())
        invariant Written() == old(Written()) + data[..pos]
        decreases |data| - pos
      {
        if n > |data| - pos { n := |data| - pos; }
        AllWrite(data[pos..pos + n]);
        assert data[..pos] + data[pos..pos + n] == data[..pos + n];
        pos := pos + n;
      }
    }

    /** `buffer_putalign`: everything goes through the buffer. */
    method PutAlign(data: seq<byte>)
      requires Valid()
      modifies this, x
      ensures Valid() && Total() == old(Total()) + data
      ensures |data| <= x.Length - old(p) ==> Written() == old(Written())
      ensures old(Settled()) ==> Settled()
    {
      hide Archived, Distinct, Rotates, Settled;
      var pos := 0;
      assert data[..0] == [];
      while |data| - pos > x.Length - p
        invariant 0 <= pos <= |data|
        invariant Valid() && (old(Settled()) ==> Settled())
        invariant |data| <= x.Length - old(p) ==> pos == 0 && p == old(p) && Written() == old(Written())
        invariant Total() == old(Total()) + data[..pos]
        decreases |data| - pos, p
      {
        var n := x.Length - p;
        Fill(data[pos..pos + n]);
        assert data[..pos] + data[pos..pos + n] == data[..pos + n];
        pos := pos + n;
        Flush();
        assert Total() == Written();
      }
      assert data[..pos] + data[pos..] == data;
      Fill(data[pos..]);
    }
  }

  /** What the logger does to a directory. */
  datatype Op = Put(data: seq<byte>) | PutAlign(data: seq<byte>) | Flush | RotateNow

  /** The bytes put by a sequence of operations. */
  ghost function AllPut(ops: seq<Op>): seq<byte> {
    if ops == [] then []
    else
      var op := ops[|ops| - 1];
      AllPut(ops[..|ops| - 1]) + (if op.Put? || op.PutAlign? then op.data else [])
  }

  /** One operation. */
  method RunOp(ld: LogDir, op: Op)
    requires ld.Valid()
    modifies ld, ld.x
    ensures ld.Valid() && ld.Total() == old(ld.Total()) + (if op.Put? || op.PutAlign? then op.data else [])
    ensures old(ld.Settled()) ==> ld.Settled()
    ensures op == Flush ==> ld.p == 0
    ensures op == RotateNow ==> ld.p == 0 && ld.current == []
  {
    hide Archived, Distinct, LogDir.Settled;
    match op {
      case Put(data) => ld.Put(data);
      case PutAlign(data) => ld.PutAlign(data);
      case Flush =>
        ld.Flush();
        assert ld.Total() == ld.Written();
      case RotateNow =>
        ld.Flush();
        assert ld.Total() == ld.Written();
        ghost var clobbered := ld.Rotate();
    }
  }

  /**
   Any run: archives in rotation order, the current file and the buffer together hold exactly what
   was there and what was put. With a size limit no file made in the run exceeds it, that is no
   archive but perhaps the first and no current file after that; and no line ends the current file
   within a line's length of the limit.
   */
  method RunLog(ld: LogDir, ops: seq<Op>)
    requires ld.Valid()
    modifies ld, ld.x
    ensures ld.Valid() && ld.Total() == old(ld.Total()) + AllPut(ops)
    ensures ld.sizemax > 0 ==> forall n :: n in ld.created ==> n in ld.files && |ld.files[n]| <= ld.sizemax
    ensures ld.sizemax > 0 ==> forall k :: 1 <= k < |ld.order| ==> ld.order[k] in ld.files && |ld.files[ld.order[k]]| <= ld.sizemax
    ensures ld.sizemax > 0 && (ld.order != [] || ld.freshCurrent) ==> |ld.current| <= ld.sizemax
    ensures old(ld.Settled()) ==> ld.Settled()
    ensures ops != [] && ops[|ops| - 1] == Flush ==> ld.p == 0
    ensures ops != [] && ops[|ops| - 1] == RotateNow ==> ld.p == 0 && ld.current == []
  {
    hide Archived, Distinct, LogDir.Settled;
    assert ld.Total() + [] == ld.Total();
    for i := 0 to |ops|
      invariant ld.Valid() && ld.Total() == old(ld.Total()) + AllPut(ops[..i])
      invariant old(ld.Settled()) ==> ld.Settled()
      invariant i > 0 && ops[i - 1] == Flush ==> ld.p == 0
      invariant i > 0 && ops[i - 1] == RotateNow ==> ld.p == 0 && ld.current == []
    {
      RunOp(ld, ops[i]);
      assert ops[..i + 1][..i] == ops[..i];
    }
    assert ops[..|ops|] == ops;
  }
}
