/**
 The installer's undo log as a value: byte ranges with the content they had, and what writing
 them back in reverse order does to a device (limine/host/limine.c).
 */
module UndoLog {
  import opened Bytes

  datatype Record = Record(loc: u64, data: seq<byte>)

  /** `s` with `d` written over it at `at`. */
  function Splice(s: seq<byte>, at: nat, d: seq<byte>): (r: seq<byte>)
    requires at + |d| <= |s|
    ensures |r| == |s|
    ensures forall x :: 0 <= x < |s| ==> r[x] == if at <= x < at + |d| then d[x - at] else s[x]
  {
    s[..at] + d + s[at + |d|..]
  }

  /** The record lies on a device of this size; an empty one may lie anywhere. */
  predicate Fits(r: Record, size: nat) {
    r.data == [] || r.loc + |r.data| <= size
  }

  predicate InRange(log: seq<Record>, size: nat) {
    forall i :: 0 <= i < |log| ==> Fits(log[i], size)
  }

  /** `s` after the record is written back. */
  function Restore(s: seq<byte>, r: Record): (t: seq<byte>)
    requires Fits(r, |s|)
    ensures |t| == |s|
    ensures forall x :: 0 <= x < |s| ==> t[x] == if Covers(r, x) then r.data[x - r.loc] else s[x]
  {
    if r.data == [] then s else Splice(s, r.loc, r.data)
  }

  predicate Covers(r: Record, x: nat) {
    r.loc <= x < r.loc + |r.data|
  }

  /** Writing the records back, first to last. */
  ghost function Replay(log: seq<Record>, s: seq<byte>): (r: seq<byte>)
    requires InRange(log, |s|)
    ensures |r| == |s|
    decreases |log|
  {
    if log == [] then s else Replay(log[1..], Restore(s, log[0]))
  }

  ghost function Reverse<T>(s: seq<T>): (r: seq<T>)
    ensures |r| == |s|
    ensures forall i :: 0 <= i < |s| ==> r[i] == s[|s| - 1 - i]
  {
    if s == [] then [] else Reverse(s[1..]) + [s[0]]
  }

  /** What the earliest record that covers byte `x` saved there. */
  ghost function FirstSaved(log: seq<Record>, x: nat): Option<byte> {
    if log == [] then None
    else if Covers(log[0], x) then Some(log[0].data[x - log[0].loc])
    else FirstSaved(log[1..], x)
  }

  lemma {:induction false} ReplayAppend(log: seq<Record>, r: Record, s: seq<byte>)
    requires InRange(log, |s|) && Fits(r, |s|)
    ensures InRange(log + [r], |s|)
    ensures Replay(log + [r], s) == Restore(Replay(log, s), r)
    decreases |log|
  {
    if log == [] {
      assert log + [r] == [r];
      assert Replay([r], s) == Replay([r][1..], Restore(s, r));
    } else {
      var s' := Restore(s, log[0]);
      assert (log + [r])[1..] == log[1..] + [r];
      ReplayAppend(log[1..], r, s');
    }
  }

  /** After the reversed replay each byte holds the earliest saved value, or is untouched. */
  lemma {:induction false} ReverseReplayAt(log: seq<Record>, s: seq<byte>, x: nat)
    requires InRange(log, |s|) && x < |s|
    ensures InRange(Reverse(log), |s|)
    ensures Replay(Reverse(log), s)[x] == match FirstSaved(log, x) case Some(v) => v case None => s[x]
    decreases |log|
  {
    if log != [] {
      ReverseReplayAt(log[1..], s, x);
      ReplayAppend(Reverse(log[1..]), log[0], s);
    }
  }

  lemma {:induction false} FirstSavedAppend(log: seq<Record>, r: Record, x: nat)
    ensures FirstSaved(log + [r], x) ==
            if FirstSaved(log, x).Some? then FirstSaved(log, x)
            else if Covers(r, x) then Some(r.data[x - r.loc]) else None
    decreases |log|
  {
    if log == [] {
      assert log + [r] == [r];
    } else {
      assert (log + [r])[1..] == log[1..] + [r];
      FirstSavedAppend(log[1..], r, x);
    }
  }

  /** Every saved byte that counts is the original one. */
  ghost predicate SavesOriginal(initial: seq<byte>, log: seq<Record>) {
    && InRange(log, |initial|)
    && (forall x: nat :: x < |initial| && FirstSaved(log, x).Some? ==> FirstSaved(log, x).value == initial[x])
  }

  /** Bytes no record covers still hold their original value in `s`. */
  ghost predicate UncoveredIntact(initial: seq<byte>, log: seq<Record>, s: seq<byte>) {
    && |s| == |initial|
    && (forall x: nat :: x < |initial| && FirstSaved(log, x).None? ==> s[x] == initial[x])
  }

  /**
   Exactly when undoing works: over any device content `s`, the reversed replay restores the
   original if and only if the bytes the log does not cover are intact in `s`.
   */
  lemma UndoRestoresExactly(initial: seq<byte>, log: seq<Record>, s: seq<byte>)
    requires SavesOriginal(initial, log) && |s| == |initial|
    ensures InRange(Reverse(log), |s|)
    ensures Replay(Reverse(log), s) == initial <==> UncoveredIntact(initial, log, s)
  {
    var t := Replay(Reverse(log), s);
    forall x: nat | x < |s|
      ensures t[x] == match FirstSaved(log, x) case Some(v) => v case None => s[x]
    {
      ReverseReplayAt(log, s, x);
    }
  }

  /** The undo invariant of a running install, for device content and content seen through the cache. */
  ghost predicate Undoable(initial: seq<byte>, log: seq<Record>, disk: seq<byte>, logical: seq<byte>) {
    && SavesOriginal(initial, log)
    && UncoveredIntact(initial, log, disk)
    && UncoveredIntact(initial, log, logical)
  }

  /** Flushing moves cached bytes to the device and nothing else: each byte is old, or the logical one. */
  ghost predicate Mixed(before: seq<byte>, logical: seq<byte>, after: seq<byte>) {
    && |before| == |logical| == |after|
    && (forall x :: 0 <= x < |after| ==> after[x] == before[x] || after[x] == logical[x])
  }

  /** Moving cached bytes to the device keeps the install undoable. */
  lemma UndoableMixed(initial: seq<byte>, log: seq<Record>, disk: seq<byte>, logical: seq<byte>, disk': seq<byte>)
    requires Undoable(initial, log, disk, logical) && Mixed(disk, logical, disk')
    ensures Undoable(initial, log, disk', logical)
  {
  }

  /** What `device_write_raw` saves: the range about to be overwritten. */
  function Saved(s: seq<byte>, loc: u64, n: nat): Record
    requires n > 0 ==> loc + n <= |s|
  {
    Record(loc, if n == 0 then [] else s[loc..loc + n])
  }

  /** Saving a range before overwriting it keeps the install undoable. */
  lemma UndoableWrite(initial: seq<byte>, log: seq<Record>, disk: seq<byte>, logical: seq<byte>,
                      loc: u64, n: nat, disk': seq<byte>, logical': seq<byte>)
    requires Undoable(initial, log, disk, logical)
    requires n > 0 ==> loc + n <= |logical|
    requires |logical'| == |logical| == |disk'|
    requires forall x :: 0 <= x < |disk'| && !(loc <= x < loc + n) ==> disk'[x] == disk[x] || disk'[x] == logical[x]
    requires forall x :: 0 <= x < |disk'| && !(loc <= x < loc + n) ==> logical'[x] == logical[x]
    ensures Undoable(initial, log + [Saved(logical, loc, n)], disk', logical')
  {
    var r := Saved(logical, loc, n);
    forall x: nat | x < |initial|
      ensures FirstSaved(log + [r], x) ==
              if FirstSaved(log, x).Some? then FirstSaved(log, x)
              else if Covers(r, x) then Some(logical[x]) else None
    {
      FirstSavedAppend(log, r, x);
    }
  }
}
