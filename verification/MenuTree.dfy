/**
 Finding and numbering boot-menu entries (limine/common/menu.c). Counting, searching by path and
 printing walk the tree separately; all three number entries by one list, the entries on display
 in the order they are shown.
 */
module MenuTree {
  import opened Bytes
  import opened MenuPath

  /** The directories shown open. */
  type Expansion = set<Pos>

  predicate Opened(m: Menu, exp: Expansion, at: Pos) {
    m.Node? && m.sub.Node? && at in exp
  }

  /** The entries on display, in order: those of sibling row `m`, whose first entry is number `i` below `prefix`. */
  ghost function Visible(m: Menu, exp: Expansion, prefix: Pos, i: nat): seq<Pos>
    decreases m
  {
    if m.End? then []
    else if Skip(m) then Visible(m.next, exp, prefix, i + 1)
    else
      [prefix + [i]]
      + (if Opened(m, exp, prefix + [i]) then Visible(m.sub, exp, prefix + [i], 0) else [])
      + Visible(m.next, exp, prefix, i + 1)
  }

  /** `count_visible_entries`. */
  method CountVisible(m: Menu, exp: Expansion, prefix: Pos) returns (count: nat)
    ensures count == |Visible(m, exp, prefix, 0)|
    decreases m
  {
    count := 0;
    var e, i := m, 0;
    while e.Node?
      invariant e == m || e < m
      invariant count + |Visible(e, exp, prefix, i)| == |Visible(m, exp, prefix, 0)|
      decreases e
    {
      if !Skip(e) {
        count := count + 1;
        if Opened(e, exp, prefix + [i]) {
          var below := CountVisible(e.sub, exp, prefix + [i]);
          count := count + below;
        }
      }
      e, i := e.next, i + 1;
    }
  }

  // ---- Searching -------------------------------------------------------------------------------

  datatype Found = NotFound(exp: Expansion) | Found(pos: Pos, index: nat, exp: Expansion)

  /** How far one shown entry moves the index on. */
  ghost function Span(m: Menu, exp: Expansion, at: Pos): nat {
    1 + (if Opened(m, exp, at) then |Visible(m.sub, exp, at, 0)| else 0)
  }

  /** The search along a sibling row for the `dup`-th shown entry of a name. */
  ghost function Search(q: Parsed, m: Menu, prefix: Pos, i: nat, same: nat, idx: nat, exp: Expansion, expand: bool): Found
    decreases m, 0
  {
    if m.End? then NotFound(exp)
    else if Skip(m) then Search(q, m.next, prefix, i + 1, same, idx, exp, expand)
    else if m.name == q.name && same == q.dup && q.rest == "" && m.sub.End? then Found(prefix + [i], idx, exp)
    else if m.name == q.name && same == q.dup && q.rest != "" && m.sub.Node? then
      FindIn(q.rest, m.sub, prefix + [i], idx + 1, if expand then exp + {prefix + [i]} else exp, expand)
    else
      Search(q, m.next, prefix, i + 1, if m.name == q.name then same + 1 else same,
             idx + Span(m, exp, prefix + [i]), exp, expand)
  }

  ghost function FindIn(path: string, m: Menu, prefix: Pos, base: nat, exp: Expansion, expand: bool): Found
    decreases m, 1
  {
    Search(Parse(path), m, prefix, 0, 0, base, exp, expand)
  }

  /** `find_entry_by_path`; opening directories changes `exp` even when the search then fails. */
  method FindEntryByPath(path: string, m: Menu, prefix: Pos, base: nat, exp: Expansion, expand: bool)
    returns (r: Found)
    ensures r == FindIn(path, m, prefix, base, exp, expand)
    decreases m
  {
    var name, dup, rest := ParsePathComponent(path);
    ghost var q := Parse(path);
    var e, i, same, idx := m, 0, 0, base;
    while e.Node?
      invariant e == m || e < m
      invariant Search(q, e, prefix, i, same, idx, exp, expand) == FindIn(path, m, prefix, base, exp, expand)
      decreases e
    {
      if !Skip(e) {
        if e.name == name && same == dup {
          if rest == "" && e.sub.End? {
            return Found(prefix + [i], idx, exp);
          } else if rest != "" && e.sub.Node? {
            r := FindEntryByPath(rest, e.sub, prefix + [i], idx + 1, if expand then exp + {prefix + [i]} else exp, expand);
            return;
          }
        }
        if e.name == name { same := same + 1; }
        if Opened(e, exp, prefix + [i]) {
          var below := CountVisible(e.sub, exp, prefix + [i]);
          idx := idx + 1 + below;
        } else {
          idx := idx + 1;
        }
      }
      e, i := e.next, i + 1;
    }
    r := NotFound(exp);
  }

  // ---- The printed path finds its entry ------------------------------------------------------------

  /** The entry is a leaf, and not skipped. */
  ghost predicate Leaf(m: Menu, pos: Pos)
    decreases |pos|
  {
    && pos != [] && Nth(m, pos[0]).Node?
    && (if |pos| == 1 then Nth(m, pos[0]).sub.End? && !Skip(Nth(m, pos[0]))
        else Nth(m, pos[0]).sub.Node? && Leaf(Nth(m, pos[0]).sub, pos[1..]))
  }

  /** The entry prints as something: it has a name, or a number among its siblings, or no directory above. */
  ghost predicate Printable(m: Menu, pos: Pos)
    requires Leaf(m, pos)
    decreases |pos|
  {
    if |pos| == 1 then true
    else
      var row := Nth(m, pos[0]).sub;
      assert Leaf(row, pos[1..]) && pos[1..][0] == pos[1];
      if |pos| == 2 then Nth(row, pos[1]).name != "" || SameBefore(row, "", pos[1]) > 0
      else Printable(row, pos[1..])
  }

  /** The display positions before sibling number `k`. */
  ghost function Before(m: Menu, exp: Expansion, prefix: Pos, i: nat, k: nat): nat
    decreases k
  {
    if m.End? || k == 0 then 0
    else (if Skip(m) then 0 else Span(m, exp, prefix + [i])) + Before(m.next, exp, prefix, i + 1, k - 1)
  }

  /** The search passes over every earlier sibling and arrives at the one that was printed. */
  lemma {:induction false} SearchArrives(q: Parsed, m: Menu, prefix: Pos, i: nat, same: nat, idx: nat,
                                         exp: Expansion, expand: bool, k: nat)
    requires Nth(m, k).Node? && !Skip(Nth(m, k))
    requires q.name == Nth(m, k).name && same + SameBefore(m, q.name, k) == q.dup
    ensures Search(q, m, prefix, i, same, idx, exp, expand)
            == Search(q, Nth(m, k), prefix, i + k, q.dup, idx + Before(m, exp, prefix, i, k), exp, expand)
    decreases k
  {
    hide Span;
    if k > 0 {
      if Skip(m) {
        SearchArrives(q, m.next, prefix, i + 1, same, idx, exp, expand, k - 1);
      } else {
        SearchArrives(q, m.next, prefix, i + 1, if m.name == q.name then same + 1 else same,
                      idx + Span(m, exp, prefix + [i]), exp, expand, k - 1);
      }
    }
  }

  /** The directories above an entry. */
  ghost function Above(prefix: Pos, pos: Pos): Expansion
    decreases |pos|
  {
    if |pos| <= 1 then {} else {prefix + [pos[0]]} + Above(prefix + [pos[0]], pos[1..])
  }

  /** Searching for a printed path finds the entry it was printed from. */
  lemma {:induction false} FindsPrinted(m: Menu, pos: Pos, prefix: Pos, base: nat, exp: Expansion)
    requires Leaf(m, pos) && Numbered(m, pos) && Printable(m, pos)
    ensures FindIn(Path(m, pos), m, prefix, base, exp, true)
            == Found(prefix + pos, base + IndexOf(m, pos, prefix, exp), exp + Above(prefix, pos))
    decreases |pos|
  {
    hide Parse, Search, Path, Before, SameBefore;
    var k := pos[0];
    var e := Nth(m, k);
    ParsePath(m, pos);
    var q := Parse(Path(m, pos));
    SearchArrives(q, m, prefix, 0, 0, base, exp, true, k);
    var idx := base + Before(m, exp, prefix, 0, k);
    if |pos| == 1 {
      SearchLeaf(q, e, prefix, k, idx, exp, true);
      assert prefix + pos == prefix + [k];
      assert exp + Above(prefix, pos) == exp;
    } else {
      EmptyPath(e.sub, pos[1..]);
      SearchDirectory(q, e, prefix, k, idx, exp);
      FindsPrinted(e.sub, pos[1..], prefix + [k], idx + 1, exp + {prefix + [k]});
      assert prefix + [k] + pos[1..] == prefix + pos;
      assert exp + {prefix + [k]} + Above(prefix + [k], pos[1..]) == exp + Above(prefix, pos);
    }
  }

  /** Only a leaf without name and number prints as nothing. */
  lemma EmptyPath(m: Menu, pos: Pos)
    requires Leaf(m, pos)
    ensures Path(m, pos) == "" <==> |pos| == 1 && Nth(m, pos[0]).name == "" && SameBefore(m, "", pos[0]) == 0
  {
    var e := Nth(m, pos[0]);
    if e.name != "" {
      assert |EscapeChar(e.name[0])| > 0;
    }
  }

  /** Below a directory, an entry that prints as nothing is not found: its path names the directory. */
  lemma {:induction false} MissesUnprintable(m: Menu, pos: Pos, prefix: Pos, base: nat, exp: Expansion)
    requires Leaf(m, pos) && Numbered(m, pos) && !Printable(m, pos)
    ensures FindIn(Path(m, pos), m, prefix, base, exp, true).NotFound?
    decreases |pos|
  {
    hide Parse, Search, Path, Before, SameBefore;
    var k := pos[0];
    var e := Nth(m, k);
    ParsePath(m, pos);
    var q := Parse(Path(m, pos));
    SearchArrives(q, m, prefix, 0, 0, base, exp, true, k);
    var idx := base + Before(m, exp, prefix, 0, k);
    EmptyPath(e.sub, pos[1..]);
    if |pos| == 2 {
      SearchNamesDirectory(q, e, prefix, k, idx, exp);
    } else {
      SearchDirectory(q, e, prefix, k, idx, exp);
      MissesUnprintable(e.sub, pos[1..], prefix + [k], idx + 1, exp + {prefix + [k]});
    }
  }

  /** A search that has passed its number finds nothing more. */
  lemma {:induction false} SearchPast(q: Parsed, m: Menu, prefix: Pos, i: nat, same: nat, idx: nat, exp: Expansion)
    requires same > q.dup
    ensures Search(q, m, prefix, i, same, idx, exp, true).NotFound?
    decreases m
  {
    if m.Node? {
      SearchPast(q, m.next, prefix, i + 1, same, idx, exp);
      SearchPast(q, m.next, prefix, i + 1, if m.name == q.name then same + 1 else same,
                 idx + Span(m, exp, prefix + [i]), exp);
    }
  }

  lemma SearchNamesDirectory(q: Parsed, e: Menu, prefix: Pos, i: nat, idx: nat, exp: Expansion)
    requires e.Node? && e.sub.Node? && e.name == q.name && q.rest == ""
    ensures Search(q, e, prefix, i, q.dup, idx, exp, true).NotFound?
  {
    SearchPast(q, e.next, prefix, i + 1, q.dup + 1, idx + Span(e, exp, prefix + [i]), exp);
  }

  /**
   Exactly when a printed path leads back: a search for the path of a shown leaf returns that leaf
   if and only if it prints as something.
   */
  lemma FindsExactlyPrintable(m: Menu, pos: Pos, prefix: Pos, base: nat, exp: Expansion)
    requires Leaf(m, pos) && Numbered(m, pos)
    ensures (FindIn(Path(m, pos), m, prefix, base, exp, true)
             == Found(prefix + pos, base + IndexOf(m, pos, prefix, exp), exp + Above(prefix, pos))) <==> Printable(m, pos)
    ensures FindIn(Path(m, pos), m, prefix, base, exp, true).Found? <==> Printable(m, pos)
  {
    if Printable(m, pos) {
      FindsPrinted(m, pos, prefix, base, exp);
    } else {
      MissesUnprintable(m, pos, prefix, base, exp);
    }
  }

  lemma SearchLeaf(q: Parsed, e: Menu, prefix: Pos, i: nat, idx: nat, exp: Expansion, expand: bool)
    requires e.Node? && !Skip(e) && e.sub.End? && e.name == q.name && q.rest == ""
    ensures Search(q, e, prefix, i, q.dup, idx, exp, expand) == Found(prefix + [i], idx, exp)
  {
  }

  lemma SearchDirectory(q: Parsed, e: Menu, prefix: Pos, i: nat, idx: nat, exp: Expansion)
    requires e.Node? && e.sub.Node? && e.name == q.name && q.rest != ""
    ensures Search(q, e, prefix, i, q.dup, idx, exp, true)
            == FindIn(q.rest, e.sub, prefix + [i], idx + 1, exp + {prefix + [i]}, true)
  {
  }

  /** The index the search reports, counted while directories are being opened. */
  ghost function IndexOf(m: Menu, pos: Pos, prefix: Pos, exp: Expansion): nat
    requires pos != []
    decreases |pos|
  {
    Before(m, exp, prefix, 0, pos[0])
    + (if |pos| == 1 || Nth(m, pos[0]).End? then 0
       else 1 + IndexOf(Nth(m, pos[0]).sub, pos[1..], prefix + [pos[0]], exp + {prefix + [pos[0]]}))
  }

  // ---- The reported index is where the entry is shown ----------------------------------------------

  /** The expansions agree on everything below siblings `lo .. hi` of `prefix`. */
  ghost predicate Agree(a: Expansion, b: Expansion, prefix: Pos, lo: nat, hi: nat) {
    forall q :: q in a + b && |q| > |prefix| && q[..|prefix|] == prefix && lo <= q[|prefix|] < hi ==> q in a && q in b
  }

  /** What is shown below an entry depends only on the directories below it. */
  lemma {:induction false} VisibleFrame(m: Menu, a: Expansion, b: Expansion, prefix: Pos, i: nat, hi: nat)
    requires Agree(a, b, prefix, i, hi) && i + Length(m) <= hi
    ensures Visible(m, a, prefix, i) == Visible(m, b, prefix, i)
    decreases m
  {
    if m.Node? {
      VisibleFrame(m.next, a, b, prefix, i + 1, hi);
      if m.sub.Node? { BelowFrame(m, a, b, prefix, i, hi); }
    }
  }

  lemma {:induction false} BelowFrame(m: Menu, a: Expansion, b: Expansion, prefix: Pos, i: nat, hi: nat)
    requires m.Node? && m.sub.Node? && Agree(a, b, prefix, i, hi) && i < hi
    ensures Opened(m, a, prefix + [i]) <==> Opened(m, b, prefix + [i])
    ensures Visible(m.sub, a, prefix + [i], 0) == Visible(m.sub, b, prefix + [i], 0)
    decreases m, 0
  {
    var p := prefix + [i];
    assert p[..|prefix|] == prefix && p[|prefix|] == i;
    forall q | q in a + b && |q| > |p| && q[..|p|] == p ensures q in a && q in b {
      assert q[..|prefix|] == q[..|p|][..|prefix|] == prefix;
      assert q[|prefix|] == q[..|p|][|prefix|] == i;
    }
    VisibleFrame(m.sub, a, b, p, 0, Length(m.sub));
  }

  function Length(m: Menu): nat { if m.End? then 0 else 1 + Length(m.next) }

  lemma {:induction false} BeforeFrame(m: Menu, a: Expansion, b: Expansion, prefix: Pos, i: nat, k: nat)
    requires Agree(a, b, prefix, i, i + k)
    ensures Before(m, a, prefix, i, k) == Before(m, b, prefix, i, k)
    decreases k
  {
    if m.Node? && k > 0 {
      BeforeFrame(m.next, a, b, prefix, i + 1, k - 1);
      if m.sub.Node? { BelowFrame(m, a, b, prefix, i, i + k); }
    }
  }

  /** Behind the positions of the first `k` siblings come those of the rest. */
  lemma {:induction false} VisibleFrom(m: Menu, exp: Expansion, prefix: Pos, i: nat, k: nat)
    ensures Before(m, exp, prefix, i, k) <= |Visible(m, exp, prefix, i)|
    ensures Visible(m, exp, prefix, i)[Before(m, exp, prefix, i, k)..] == Visible(Nth(m, k), exp, prefix, i + k)
    decreases k
  {
    if m.Node? && k > 0 {
      VisibleFrom(m.next, exp, prefix, i + 1, k - 1);
      if !Skip(m) {
        var p := prefix + [i];
        var own := [p] + (if Opened(m, exp, p) then Visible(m.sub, exp, p, 0) else []);
        assert |own| == Span(m, exp, p);
        DropFront(own, Visible(m.next, exp, prefix, i + 1), Before(m.next, exp, prefix, i + 1, k - 1));
      }
    }
  }

  lemma DropFront<T>(a: seq<T>, b: seq<T>, n: nat)
    requires n <= |b|
    ensures (a + b)[|a| + n..] == b[n..]
  {
  }

  lemma {:induction false} AboveIsBelow(prefix: Pos, pos: Pos, q: Pos)
    requires q in Above(prefix, pos)
    ensures pos != [] && |q| > |prefix| && q[..|prefix|] == prefix && q[|prefix|] == pos[0]
    decreases |pos|
  {
    var p := prefix + [pos[0]];
    if q in Above(p, pos[1..]) {
      AboveIsBelow(p, pos[1..], q);
      assert q[..|prefix|] == q[..|p|][..|prefix|] && q[|prefix|] == q[..|p|][|prefix|];
    }
  }

  /** With the directories above it open, the entry is shown at the index the search reports. */
  lemma {:induction false} ShownAtIndex(m: Menu, pos: Pos, prefix: Pos, exp: Expansion)
    requires Leaf(m, pos)
    ensures var shown := Visible(m, exp + Above(prefix, pos), prefix, 0);
            IndexOf(m, pos, prefix, exp) < |shown| && shown[IndexOf(m, pos, prefix, exp)] == prefix + pos
    decreases |pos|
  {
    hide Visible, Before, Nth;
    var k := pos[0];
    var e, p := Nth(m, k), prefix + [k];
    var all := exp + Above(prefix, pos);
    RowFrom(m, pos, prefix, exp);
    var n := Before(m, exp, prefix, 0, k);
    var shown, tail := Visible(m, all, prefix, 0), Visible(e, all, prefix, k);
    VisibleHead(e, all, prefix, k);
    if |pos| == 1 {
      FromTail(shown, n, tail, 0);
      assert p == prefix + pos;
    } else {
      ShownAtIndex(e.sub, pos[1..], p, exp + {p});
      assert exp + {p} + Above(p, pos[1..]) == all;
      assert p + pos[1..] == prefix + pos;
      FromTail(shown, n, tail, 1 + IndexOf(e.sub, pos[1..], p, exp + {p}));
    }
  }

  /** The row from the entry on, after the directories above it are opened. */
  lemma RowFrom(m: Menu, pos: Pos, prefix: Pos, exp: Expansion)
    requires pos != []
    ensures var all := exp + Above(prefix, pos);
            var n := Before(m, exp, prefix, 0, pos[0]);
            n <= |Visible(m, all, prefix, 0)|
            && Visible(m, all, prefix, 0)[n..] == Visible(Nth(m, pos[0]), all, prefix, pos[0])
  {
    var all := exp + Above(prefix, pos);
    AboveAgrees(prefix, pos, exp);
    BeforeFrame(m, exp, all, prefix, 0, pos[0]);
    VisibleFrom(m, all, prefix, 0, pos[0]);
  }

  lemma FromTail<T>(s: seq<T>, n: nat, tail: seq<T>, j: nat)
    requires n <= |s| && s[n..] == tail && j < |tail|
    ensures n + j < |s| && s[n + j] == tail[j]
  {
  }

  /** A shown entry heads its row, and an open directory's entries follow it. */
  lemma VisibleHead(e: Menu, exp: Expansion, prefix: Pos, i: nat)
    requires e.Node? && !Skip(e)
    ensures Visible(e, exp, prefix, i) != [] && Visible(e, exp, prefix, i)[0] == prefix + [i]
    ensures Opened(e, exp, prefix + [i]) ==>
              forall j :: 0 <= j < |Visible(e.sub, exp, prefix + [i], 0)| ==>
                1 + j < |Visible(e, exp, prefix, i)|
                && Visible(e, exp, prefix, i)[1 + j] == Visible(e.sub, exp, prefix + [i], 0)[j]
  {
  }

  /** Opening the directories above an entry changes nothing for the siblings before it. */
  lemma AboveAgrees(prefix: Pos, pos: Pos, exp: Expansion)
    requires pos != []
    ensures Agree(exp, exp + Above(prefix, pos), prefix, 0, pos[0])
  {
    var all := exp + Above(prefix, pos);
    forall q | q in exp + all && |q| > |prefix| && q[..|prefix|] == prefix && 0 <= q[|prefix|] < pos[0]
      ensures q in exp && q in all
    {
      if q in Above(prefix, pos) { AboveIsBelow(prefix, pos, q); }
    }
  }

  // ---- Printing ----------------------------------------------------------------------------------

  /** The selection among the first `n` entries shown from `base` on. */
  ghost function Selected(shown: seq<Pos>, n: nat, base: nat, index: nat, considered: bool, sel: Option<Pos>): Option<Pos>
    requires n <= |shown|
  {
    if considered && base <= index < base + n then Some(shown[index - base]) else sel
  }

  /**
   The index logic of `print_tree`: how many entries it shows, and which one it selects, if that is
   in the window of lines or nothing is printed.
   */
  method PrintTree(m: Menu, prefix: Pos, base: nat, selected: nat, exp: Expansion,
                   noPrint: bool, offset: nat, window: nat, sel: Option<Pos>)
    returns (count: nat, sel': Option<Pos>)
    ensures count == |Visible(m, exp, prefix, 0)|
    ensures sel' == if base <= selected < base + count && (noPrint || offset <= selected < offset + window)
                    then Some(Visible(m, exp, prefix, 0)[selected - base]) else sel
    decreases m
  {
    count, sel' := 0, sel;
    ghost var shown := Visible(m, exp, prefix, 0);
    ghost var c := noPrint || offset <= selected < offset + window;
    var e, i := m, 0;
    while e.Node?
      invariant e == m || e < m
      invariant count <= |shown| && shown[count..] == Visible(e, exp, prefix, i)
      invariant sel' == Selected(shown, count, base, selected, c, sel)
      decreases e
    {
      if !Skip(e) {
        var p := prefix + [i];
        ghost var rest := Visible(e.next, exp, prefix, i + 1);
        ghost var below := if Opened(e, exp, p) then Visible(e.sub, exp, p, 0) else [];
        ghost var n := count;
        assert shown[n..] == [p] + below + rest;
        SplitShown(shown, n, p, below, rest);
        var skipped := !noPrint && (base + count < offset || base + count >= offset + window);
        if !skipped && base + count == selected { sel' := Some(p); }
        if Opened(e, exp, p) {
          var k;
          k, sel' := PrintTree(e.sub, p, base + count + 1, selected, exp, noPrint, offset, window, sel');
          count := count + k;
        }
        count := count + 1;
        assert count == n + 1 + |below|;
      }
      e, i := e.next, i + 1;
    }
  }

  lemma SplitShown(shown: seq<Pos>, n: nat, p: Pos, below: seq<Pos>, rest: seq<Pos>)
    requires n <= |shown| && shown[n..] == [p] + below + rest
    ensures n + 1 + |below| <= |shown|
    ensures shown[n] == p && shown[n + 1 + |below|..] == rest
    ensures forall j :: n + 1 <= j < n + 1 + |below| ==> shown[j] == below[j - n - 1]
  {
    var t := shown[n..];
    assert shown[n] == t[0];
    assert shown[n + 1 + |below|..] == t[1 + |below|..];
    forall j | n + 1 <= j < n + 1 + |below| ensures shown[j] == below[j - n - 1] {
      assert shown[j] == t[j - n];
    }
  }

  /**
   Remembering a leaf by its path and coming back to it: the path printed into a buffer it fits
   finds the same leaf, and selecting at the reported index selects it, if and only if it prints
   as something; otherwise nothing is found.
   */
  method ReturnToEntry(root: Menu, pos: Pos, buf: array<char>, exp: Expansion) returns (r: Found, sel: Option<Pos>)
    requires Leaf(root, pos) && Numbered(root, pos) && |Path(root, pos)| < buf.Length
    modifies buf
    ensures r.Found? <==> Printable(root, pos)
    ensures r.Found? ==> r.pos == pos && sel == Some(pos) && r.exp == exp + Above([], pos)
    ensures r.NotFound? ==> sel == None
  {
    hide Path, Visible, Leaf, Above, Printable;
    LeafEntry(root, pos);
    var end := GetEntryPath(root, pos, buf);
    r := FindEntryByPath(buf[..end], root, [], 0, exp, true);
    FindsExactlyPrintable(root, pos, [], 0, exp);
    if r.NotFound? { return r, None; }
    ShownAtIndex(root, pos, [], exp);
    assert [] + pos == pos;
    var count;
    count, sel := PrintTree(root, [], 0, r.index, r.exp, true, 0, 0, None);
  }

  lemma {:induction false} LeafEntry(m: Menu, pos: Pos)
    requires Leaf(m, pos)
    ensures pos != [] && At(m, pos).Node?
    decreases |pos|
  {
    if |pos| > 1 { LeafEntry(Nth(m, pos[0]).sub, pos[1..]); }
  }
}
