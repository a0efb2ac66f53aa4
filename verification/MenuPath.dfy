/**
 Boot-menu paths (limine/common/menu.c): printing an entry's path with escapes and `#N` suffixes
 for repeated names, and parsing its components.
 */
module MenuPath {
  import opened Bytes

  /** A row of sibling entries; `sub` is the first entry below, or the end for a leaf. */
  datatype Menu = End | Node(name: string, hidden: bool, sub: Menu, next: Menu)

  /** Which sibling at each level. */
  type Pos = seq<nat>

  /** `should_skip_entry`: directories are never skipped; `hidden` stands for the other tests. */
  predicate Skip(m: Menu) {
    m.Node? && m.sub.End? && m.hidden
  }

  /** The `k`-th sibling, or the end. */
  function Nth(m: Menu, k: nat): Menu {
    if m.End? || k == 0 then m else Nth(m.next, k - 1)
  }

  /** The entry at a position. */
  function At(m: Menu, pos: Pos): Menu
    decreases |pos|
  {
    if pos == [] then End
    else
      var e := Nth(m, pos[0]);
      if |pos| == 1 || e.End? then e else At(e.sub, pos[1..])
  }

  // ---- Names and numbers ---------------------------------------------------------------------

  predicate NeedsEscape(c: char) { c == '\\' || c == '/' || c == '#' }

  function EscapeChar(c: char): string { if NeedsEscape(c) then ['\\', c] else [c] }

  function Escape(name: string): string {
    if name == "" then "" else EscapeChar(name[0]) + Escape(name[1..])
  }

  predicate IsDigit(c: char) { '0' <= c <= '9' }

  function Digit(d: nat): char
    requires d < 10
    ensures IsDigit(Digit(d))
  {
    '0' + d as char
  }

  function DigitValue(c: char): nat
    requires IsDigit(c)
  {
    c as int - '0' as int
  }

  function ToDecimal(n: nat): (s: string)
    ensures s != "" && forall i :: 0 <= i < |s| ==> IsDigit(s[i])
  {
    if n < 10 then [Digit(n)] else ToDecimal(n / 10) + [Digit(n % 10)]
  }

  function FromDecimal(s: string): nat
    requires forall i :: 0 <= i < |s| ==> IsDigit(s[i])
  {
    if s == "" then 0 else 10 * FromDecimal(s[..|s| - 1]) + DigitValue(s[|s| - 1])
  }

  lemma {:induction false} DecimalRoundTrip(n: nat)
    ensures FromDecimal(ToDecimal(n)) == n
    decreases n
  {
    var s := ToDecimal(n);
    if n >= 10 {
      DecimalRoundTrip(n / 10);
      assert s[..|s| - 1] == ToDecimal(n / 10);
    }
  }

  /** What 64 bits hold of a number that is read: all of it, or the largest value. */
  function Saturated(n: nat): nat { if n < U64_LIMIT then n else U64_LIMIT - 1 }

  /** `strtoui` on a row of decimal digits. */
  method Strtoui(s: string) returns (n: nat)
    requires forall i :: 0 <= i < |s| ==> IsDigit(s[i])
    ensures n == Saturated(FromDecimal(s))
  {
    n := 0;
    for i := 0 to |s|
      invariant n == FromDecimal(s[..i]) < U64_LIMIT
    {
      assert s[..i + 1][..i] == s[..i];
      DecimalGrows(s, i + 1);
      if 10 * n >= U64_LIMIT || 10 * n + DigitValue(s[i]) >= U64_LIMIT { return U64_LIMIT - 1; }
      n := 10 * n + DigitValue(s[i]);
    }
    assert s[..|s|] == s;
  }

  /** More digits, no smaller a number. */
  lemma {:induction false} DecimalGrows(s: string, i: nat)
    requires i <= |s| && forall k :: 0 <= k < |s| ==> IsDigit(s[k])
    ensures FromDecimal(s[..i]) <= FromDecimal(s)
    decreases |s|
  {
    if i < |s| {
      DecimalGrows(s[..|s| - 1], i);
      assert s[..|s| - 1][..i] == s[..i];
    } else {
      assert s[..i] == s;
    }
  }

  // ---- Printing --------------------------------------------------------------------------------

  /** Same-named siblings that are shown, among the first `k`. */
  function SameBefore(m: Menu, name: string, k: nat): nat {
    if m.End? || k == 0 then 0
    else (if !Skip(m) && m.name == name then 1 else 0) + SameBefore(m.next, name, k - 1)
  }

  function Suffix(dup: nat): string { if dup == 0 then "" else "#" + ToDecimal(dup) }

  /** What is printed for one entry. */
  function Component(name: string, dup: nat): string { Escape(name) + Suffix(dup) }

  /** The path of the entry at a position. */
  function Path(m: Menu, pos: Pos): string
    decreases |pos|
  {
    if pos == [] then ""
    else
      var e := Nth(m, pos[0]);
      if e.End? then ""
      else
        Component(e.name, SameBefore(m, e.name, pos[0]))
        + (if |pos| == 1 then "" else "/" + Path(e.sub, pos[1..]))
  }

  // ---- Parsing ---------------------------------------------------------------------------------

  datatype Parsed = Parsed(name: string, dup: nat, rest: string)

  /** The end of the run of digits that starts at `i`. */
  function DigitsEnd(p: string, i: nat): (j: nat)
    requires i <= |p|
    ensures i <= j <= |p| && (forall k :: i <= k < j ==> IsDigit(p[k])) && (j < |p| ==> !IsDigit(p[j]))
    decreases |p| - i
  {
    if i < |p| && IsDigit(p[i]) then DigitsEnd(p, i + 1) else i
  }

  /** `p` starts with a `#`, digits, and the end of the component. */
  predicate IsSuffix(p: string) {
    && |p| > 1 && p[0] == '#' && IsDigit(p[1])
    && var q := DigitsEnd(p, 1); q == |p| || p[q] == '/'
  }

  function DropSlash(p: string): string { if p != "" && p[0] == '/' then p[1..] else p }

  function Cons(c: char, q: Parsed): Parsed { q.(name := [c] + q.name) }

  /** One path component: unescaped name, number, and what follows the separator. */
  function Parse(p: string): Parsed
    decreases |p|
  {
    if p == "" || p[0] == '/' then Parsed("", 0, DropSlash(p))
    else if p[0] == '\\' && |p| > 1 then Cons(p[1], Parse(p[2..]))
    else if IsSuffix(p) then Parsed("", Saturated(FromDecimal(p[1..DigitsEnd(p, 1)])), DropSlash(p[DigitsEnd(p, 1)..]))
    else Cons(p[0], Parse(p[1..]))
  }

  /** `tail` is the end of a path, or a separator and more. */
  predicate Separated(tail: string) { tail == "" || tail[0] == '/' }

  lemma {:induction false} DigitsEndIs(p: string, i: nat, j: nat)
    requires i <= j <= |p| && (forall k :: i <= k < j ==> IsDigit(p[k])) && (j < |p| ==> !IsDigit(p[j]))
    ensures DigitsEnd(p, i) == j
    decreases j - i
  {
    if i < j { DigitsEndIs(p, i + 1, j); }
  }

  lemma ParseSuffix(dup: nat, tail: string)
    requires Separated(tail) && dup < U64_LIMIT
    ensures Parse(Suffix(dup) + tail) == Parsed("", dup, DropSlash(tail))
  {
    if dup == 0 {
      assert Suffix(dup) + tail == tail;
    } else {
      var d := ToDecimal(dup);
      var p := Suffix(dup) + tail;
      assert p == "#" + d + tail;
      DigitsEndIs(p, 1, 1 + |d|);
      assert p[1..1 + |d|] == d && p[1 + |d|..] == tail;
      DecimalRoundTrip(dup);
    }
  }

  /** A printed component parses back to its name and number. */
  lemma {:induction false} ParseComponent(name: string, dup: nat, tail: string)
    requires Separated(tail) && dup < U64_LIMIT
    ensures Parse(Component(name, dup) + tail) == Parsed(name, dup, DropSlash(tail))
    decreases |name|
  {
    hide Parse, EscapeChar, Suffix;
    if name == "" {
      assert Component(name, dup) + tail == Suffix(dup) + tail;
      ParseSuffix(dup, tail);
    } else {
      ParseComponent(name[1..], dup, tail);
      Regroup(EscapeChar(name[0]), Escape(name[1..]), Suffix(dup), tail);
      ParseEscaped(name[0], Component(name[1..], dup) + tail);
      assert [name[0]] + name[1..] == name;
    }
  }

  lemma Regroup(a: string, b: string, c: string, d: string)
    ensures a + b + c + d == a + (b + c + d)
  {
  }

  lemma ParseEscaped(c: char, rest: string)
    ensures Parse(EscapeChar(c) + rest) == Cons(c, Parse(rest))
  {
    var p := EscapeChar(c) + rest;
    if NeedsEscape(c) {
      assert p[2..] == rest;
    } else {
      assert p[1..] == rest;
    }
  }

  /** One more than the largest number the digit buffer of `get_entry_path` has room for. */
  const MAX_DUP: nat := 10_000_000_000_000_000

  /** No entry on the way has as many same-named siblings before it as would overrun the digit buffer. */
  predicate Numbered(m: Menu, pos: Pos)
    decreases |pos|
  {
    pos != [] && Nth(m, pos[0]).Node? ==>
      && SameBefore(m, Nth(m, pos[0]).name, pos[0]) < MAX_DUP
      && (|pos| > 1 ==> Numbered(Nth(m, pos[0]).sub, pos[1..]))
  }

  /** A path's first component is its first entry's, and the rest is the path below. */
  lemma ParsePath(m: Menu, pos: Pos)
    requires pos != [] && Nth(m, pos[0]).Node? && Numbered(m, pos)
    ensures var e := Nth(m, pos[0]);
            Parse(Path(m, pos)) ==
            Parsed(e.name, SameBefore(m, e.name, pos[0]), if |pos| == 1 then "" else Path(e.sub, pos[1..]))
  {
    var e := Nth(m, pos[0]);
    var tail := if |pos| == 1 then "" else "/" + Path(e.sub, pos[1..]);
    ParseComponent(e.name, SameBefore(m, e.name, pos[0]), tail);
  }

  /** The measuring pass of `parse_path_component`: exactly the length of the name. */
  method MeasureComponent(path: string) returns (len: nat)
    ensures len == |Parse(path).name|
  {
    len := 0;
    var scan := 0;
    while scan < |path| && path[scan] != '/'
      invariant 0 <= scan <= |path|
      invariant len + |Parse(path[scan..]).name| == |Parse(path).name|
      decreases |path| - scan
    {
      var p := path[scan..];
      assert path[scan] == p[0];
      if p[0] == '\\' && |p| > 1 {
        assert path[scan + 2..] == p[2..];
        len, scan := len + 1, scan + 2;
        continue;
      }
      if IsSuffix(p) { break; }
      assert path[scan + 1..] == p[1..];
      len, scan := len + 1, scan + 1;
    }
  }

  function Prepend(front: string, q: Parsed): Parsed { q.(name := front + q.name) }

  /** One step of parsing at position `p`, as an equation for what is still to come. */
  lemma ParseStep(path: string, p: nat, front: string)
    requires p <= |path|
    ensures var s := path[p..];
            if s == "" || s[0] == '/' then Prepend(front, Parse(s)) == Parsed(front, 0, DropSlash(s))
            else if s[0] == '\\' && |s| > 1 then
              Prepend(front, Parse(s)) == Prepend(front + [s[1]], Parse(path[p + 2..])) && Parse(s).name != ""
            else if IsSuffix(s) then
              Prepend(front, Parse(s)) == Parsed(front, Saturated(FromDecimal(s[1..DigitsEnd(s, 1)])), DropSlash(s[DigitsEnd(s, 1)..]))
            else
              Prepend(front, Parse(s)) == Prepend(front + [s[0]], Parse(path[p + 1..])) && Parse(s).name != ""
  {
    var s := path[p..];
    if s == "" || s[0] == '/' {
    } else if s[0] == '\\' && |s| > 1 {
      assert path[p + 2..] == s[2..];
      PrependCons(front, s[1], Parse(s[2..]));
    } else if IsSuffix(s) {
    } else {
      assert path[p + 1..] == s[1..];
      PrependCons(front, s[0], Parse(s[1..]));
    }
  }

  lemma PrependCons(front: string, c: char, q: Parsed)
    ensures Prepend(front, Cons(c, q)) == Prepend(front + [c], q)
  {
    assert front + ([c] + q.name) == front + [c] + q.name;
  }

  /** The filling pass: into a buffer of the measured length and one more for the terminator. */
  method ParsePathComponent(path: string) returns (name: string, dup: nat, rest: string)
    ensures Parsed(name, dup, rest) == Parse(path)
  {
    hide Parse, IsSuffix;
    var len := MeasureComponent(path);
    var buf := new char[len + 1];
    var p, j := 0, 0;
    ghost var whole := Parse(path);
    assert path[0..] == path && Prepend("", whole) == whole;
    while p < |path| && path[p] != '/'
      invariant 0 <= p <= |path| && 0 <= j <= len
      invariant Prepend(buf[..j], Parse(path[p..])) == whole
      decreases |path| - p
    {
      var s := path[p..];
      assert path[p] == s[0];
      ParseStep(path, p, buf[..j]);
      if s[0] == '\\' && |s| > 1 {
        buf[j] := s[1];
        assert buf[..j + 1] == buf[..j] + [s[1]];
        p, j := p + 2, j + 1;
        continue;
      }
      if IsSuffix(s) {
        var q := DigitsEnd(s, 1);
        dup := Strtoui(s[1..q]);
        name, rest := buf[..j], DropSlash(s[q..]);
        return;
      }
      buf[j] := s[0];
      assert buf[..j + 1] == buf[..j] + [s[0]];
      p, j := p + 1, j + 1;
    }
    ParseStep(path, p, buf[..j]);
    name, dup, rest := buf[..j], 0, DropSlash(path[p..]);
  }

  // ---- Printing into a buffer ----------------------------------------------------------------------

  /** `get_sibling_dup_index`. */
  method SiblingDupIndex(first: Menu, k: nat) returns (index: nat)
    requires Nth(first, k).Node?
    ensures index == SameBefore(first, Nth(first, k).name, k)
  {
    index := 0;
    var e, i := first, 0;
    var name := Nth(first, k).name;
    while i < k
      invariant 0 <= i <= k
      invariant Nth(e, k - i) == Nth(first, k) && e.Node?
      invariant index + SameBefore(e, name, k - i) == SameBefore(first, name, k)
    {
      if !Skip(e) && e.name == name { index := index + 1; }
      e, i := e.next, i + 1;
    }
  }

  /** Store `s` at `at`. */
  method Store(buf: array<char>, at: nat, s: string)
    requires at + |s| <= buf.Length
    modifies buf
    ensures buf[..at + |s|] == old(buf[..at]) + s
  {
    forall k | 0 <= k < |s| { buf[at + k] := s[k]; }
  }

  lemma EscapeStep(name: string, i: nat, part: string)
    requires i < |name| && part + Escape(name[i..]) == Escape(name)
    ensures part + EscapeChar(name[i]) + Escape(name[i + 1..]) == Escape(name)
  {
    assert name[i..][1..] == name[i + 1..];
    assert part + (EscapeChar(name[i]) + Escape(name[i + 1..])) == part + EscapeChar(name[i]) + Escape(name[i + 1..]);
  }

  /**
   `escape_name` into what is left of the buffer: a prefix of the escaped name, and all of it if
   that and a terminator fit.
   */
  method EscapeName(name: string, buf: array<char>, at: nat) returns (n: nat, ghost part: string)
    requires at <= buf.Length
    modifies buf
    ensures n == |part| && at + n <= buf.Length && (at < buf.Length ==> at + n < buf.Length && buf[at + n] == '\0')
    ensures buf[..at + n] == old(buf[..at]) + part && part <= Escape(name)
    ensures at + |Escape(name)| < buf.Length ==> part == Escape(name)
  {
    hide EscapeChar, Escape;
    n, part := 0, "";
    var size := buf.Length - at;
    if size == 0 { return; }
    ghost var front := buf[..at];
    var i := 0;
    assert name[0..] == name && part + Escape(name) == Escape(name);
    while i < |name|
      invariant 0 <= i <= |name| && n == |part| < size
      invariant buf[..at + n] == front + part
      invariant part + Escape(name[i..]) == Escape(name)
      decreases |name| - i
    {
      var s := EscapeChar(name[i]);
      EscapeStep(name, i, part);
      if n + |s| >= size { break; }
      Store(buf, at + n, s);
      assert front + part + s == front + (part + s);
      n, part := n + |s|, part + s;
      i := i + 1;
    }
    EscapeOfNothing(name);
    assert i < |name| ==> |Escape(name)| >= size;
    buf[at + n] := '\0';
  }

  lemma EscapeOfNothing(name: string)
    ensures name[|name|..] == "" && Escape("") == ""
  {
  }

  function Pow10(k: nat): nat { if k == 0 then 1 else 10 * Pow10(k - 1) }

  lemma {:induction false} DecimalLength(n: nat, k: nat)
    requires k > 0 && n < Pow10(k)
    ensures |ToDecimal(n)| <= k
    decreases k
  {
    if n >= 10 {
      assert k > 1 && n / 10 < Pow10(k - 1);
      DecimalLength(n / 10, k - 1);
    }
  }

  lemma SixteenDigits()
    ensures Pow10(16) == MAX_DUP
  {
    assert Pow10(4) == 10_000;
    assert Pow10(8) == 100_000_000;
    assert Pow10(12) == 1_000_000_000_000;
  }

  ghost function Backwards(s: seq<char>): (r: string)
    ensures |r| == |s|
    ensures forall i :: 0 <= i < |s| ==> r[i] == s[|s| - 1 - i]
  {
    if s == [] then "" else [s[|s| - 1]] + Backwards(s[..|s| - 1])
  }

  /** The digits of `val` that are still to come. */
  function Ahead(val: nat): string { if val > 0 then ToDecimal(val) else "" }

  lemma OneDigit(val: nat, s: seq<char>)
    requires val > 0
    ensures Ahead(val / 10) + Backwards(s + [Digit(val % 10)]) == Ahead(val) + Backwards(s)
    ensures |Ahead(val / 10)| + 1 == |Ahead(val)|
  {
    var c := Digit(val % 10);
    assert (s + [c])[..|s|] == s;
    assert Backwards(s + [c]) == [c] + Backwards(s);
    assert Ahead(val) == Ahead(val / 10) + [c];
    assert Ahead(val / 10) + ([c] + Backwards(s)) == Ahead(val / 10) + [c] + Backwards(s);
  }

  /** The digits of a number, last first, in a buffer of sixteen. */
  method Digits(dup: nat) returns (digits: array<char>, n: nat)
    requires 0 < dup < MAX_DUP
    ensures digits.Length == 16 && 0 < n <= 16 && fresh(digits)
    ensures Backwards(digits[..n]) == ToDecimal(dup)
  {
    hide ToDecimal, Backwards, Ahead;
    digits := new char[16](_ => '0');
    n := 0;
    var val := dup;
    SixteenDigits();
    DecimalLength(dup, 16);
    AheadOfNothing(dup);
    assert digits[..0] == [];
    while val > 0
      invariant n + |Ahead(val)| == |ToDecimal(dup)| <= 16
      invariant Ahead(val) + Backwards(digits[..n]) == ToDecimal(dup)
    {
      OneDigit(val, digits[..n]);
      ghost var before := digits[..n];
      digits[n] := Digit(val % 10);
      assert digits[..n + 1] == before + [Digit(val % 10)];
      n, val := n + 1, val / 10;
    }
  }

  lemma AheadOfNothing(dup: nat)
    requires dup > 0
    ensures Ahead(dup) + Backwards([]) == ToDecimal(dup) && Ahead(dup) == ToDecimal(dup) && Ahead(0) == ""
    ensures forall s: seq<char> :: Ahead(0) + Backwards(s) == Backwards(s)
  {
  }

  /** The `#N` suffix, digit by digit, as far as there is room. */
  method PutSuffix(dup: nat, buf: array<char>, at: nat) returns (end: nat)
    requires at <= buf.Length && buf.Length > 0 && dup < MAX_DUP
    modifies buf
    ensures at <= end <= buf.Length && (at < buf.Length ==> end < buf.Length)
    ensures at + |Suffix(dup)| < buf.Length ==> end == at + |Suffix(dup)| && buf[..end] == old(buf[..at]) + Suffix(dup)
  {
    hide ToDecimal, Backwards, Suffix;
    ghost var front := buf[..at];
    end := at;
    SuffixText(dup, front);
    if dup > 0 && at < buf.Length - 1 {
      Store(buf, at, "#");
      var digits, n := Digits(dup);
      end := PutDigits(digits, n, buf, at + 1, ToDecimal(dup));
    }
  }

  lemma SuffixText(dup: nat, front: string)
    ensures front + Suffix(dup) == if dup == 0 then front else front + "#" + ToDecimal(dup)
    ensures |Suffix(dup)| == if dup == 0 then 0 else 1 + |ToDecimal(dup)|
  {
    hide ToDecimal;
  }

  /** The digits in reading order, as far as there is room. */
  method PutDigits(digits: array<char>, n: nat, buf: array<char>, at: nat, ghost text: string) returns (end: nat)
    requires digits != buf && n <= digits.Length && text == Backwards(digits[..n]) && at < buf.Length
    modifies buf
    ensures at <= end < buf.Length
    ensures at + n < buf.Length ==> end == at + n && buf[..end] == old(buf[..at]) + text
  {
    hide Backwards;
    ghost var front := buf[..at];
    end := at;
    var i := n;
    assert text[..0] == "" && front + "" == front;
    while i > 0 && end < buf.Length - 1
      invariant 0 <= i <= n && end == at + (n - i) < buf.Length
      invariant text == Backwards(digits[..n])
      invariant buf[..end] == front + text[..n - i]
    {
      assert text[n - i] == digits[i - 1];
      Store(buf, end, [digits[i - 1]]);
      assert front + text[..n - i] + [text[n - i]] == front + text[..n - i + 1];
      end, i := end + 1, i - 1;
    }
    assert i == 0 ==> text[..n - i] == text;
  }

  /** What is printed for the entry at a position, among its siblings. */
  function Own(m: Menu, pos: Pos): string
    requires pos != []
  {
    var siblings := if |pos| == 1 then m else if At(m, pos[..|pos| - 1]).Node? then At(m, pos[..|pos| - 1]).sub else End;
    if At(m, pos).Node? then Component(At(m, pos).name, SameBefore(siblings, At(m, pos).name, pos[|pos| - 1])) else ""
  }

  lemma {:induction false} AtParent(m: Menu, pos: Pos)
    requires |pos| > 1 && At(m, pos).Node?
    ensures At(m, pos[..|pos| - 1]).Node?
    ensures Nth(At(m, pos[..|pos| - 1]).sub, pos[|pos| - 1]) == At(m, pos)
    decreases |pos|
  {
    var up := pos[..|pos| - 1];
    if |pos| == 2 {
      assert pos[1..] == [pos[1]] && up == [pos[0]];
    } else {
      AtParent(Nth(m, pos[0]).sub, pos[1..]);
      assert pos[1..][..|pos| - 2] == up[1..];
    }
  }

  /** A path is the parent's path, a separator, and the entry's own component. */
  lemma {:induction false} PathOfParent(m: Menu, pos: Pos)
    requires |pos| > 1 && At(m, pos).Node?
    ensures Path(m, pos) == Path(m, pos[..|pos| - 1]) + ("/" + Own(m, pos))
    decreases |pos|
  {
    hide Component;
    AtParent(m, pos);
    var e := Nth(m, pos[0]);
    var up := pos[..|pos| - 1];
    var front := Component(e.name, SameBefore(m, e.name, pos[0]));
    if |pos| == 2 {
      assert pos[1..] == [pos[1]] && up == [pos[0]];
      assert Path(m, up) == front + "" == front;
    } else {
      PathOfParent(e.sub, pos[1..]);
      assert pos[1..][..|pos| - 2] == up[1..];
      assert Own(e.sub, pos[1..]) == Own(m, pos);
      Associate(front, "/", Path(e.sub, up[1..]), "/" + Own(m, pos));
    }
  }

  lemma Associate(a: string, b: string, c: string, d: string)
    ensures a + (b + (c + d)) == a + (b + c) + d
  {
  }

  /** `get_entry_path`: parents first; a path that fits, with its terminator, is printed whole. */
  method GetEntryPath(root: Menu, pos: Pos, buf: array<char>) returns (end: nat)
    requires pos != [] && At(root, pos).Node? && buf.Length > 0 && Numbered(root, pos)
    modifies buf
    ensures end < buf.Length && buf[end] == '\0'
    ensures |Path(root, pos)| < buf.Length ==> end == |Path(root, pos)| && buf[..end] == Path(root, pos)
    decreases |pos|
  {
    hide Escape, Suffix, Path, At;
    end := 0;
    ghost var front := "";
    if |pos| > 1 {
      AtParent(root, pos);
      PathOfParent(root, pos);
      NumberedParent(root, pos);
      end := GetEntryPath(root, pos[..|pos| - 1], buf);
      front := Path(root, pos[..|pos| - 1]);
      ghost var fits := |front| + 1 < buf.Length;
      if end < buf.Length - 1 {
        Store(buf, end, "/");
        end := end + 1;
      }
      front := front + "/";
      assert fits ==> end == |front| && buf[..end] == front;
      end := PutOwn(root, pos, buf, end, front);
      assert Path(root, pos) == front + Own(root, pos);
    } else {
      PathOfRoot(root, pos);
      NumberedParent(root, pos);
      end := PutOwn(root, pos, buf, end, front);
    }
    if end < buf.Length { buf[end] := '\0'; }
  }

  /** The number of the entry at a position among its siblings. */
  function OwnNumber(m: Menu, pos: Pos): nat
    requires pos != []
  {
    var siblings := if |pos| == 1 then m else if At(m, pos[..|pos| - 1]).Node? then At(m, pos[..|pos| - 1]).sub else End;
    if At(m, pos).Node? then SameBefore(siblings, At(m, pos).name, pos[|pos| - 1]) else 0
  }

  /** The bound on numbers holds for the entry itself, and for the one above it. */
  lemma {:induction false} NumberedParent(m: Menu, pos: Pos)
    requires pos != [] && At(m, pos).Node? && Numbered(m, pos)
    ensures OwnNumber(m, pos) < MAX_DUP
    ensures |pos| > 1 ==> Numbered(m, pos[..|pos| - 1])
    decreases |pos|
  {
    if |pos| > 1 {
      var up := pos[..|pos| - 1];
      AtParent(m, pos);
      var e := Nth(m, pos[0]);
      if |pos| == 2 {
        assert pos[1..] == [pos[1]] && up == [pos[0]];
      } else {
        NumberedParent(e.sub, pos[1..]);
        assert pos[1..][..|pos| - 2] == up[1..];
        assert OwnNumber(e.sub, pos[1..]) == OwnNumber(m, pos);
      }
    }
  }

  lemma PathOfRoot(m: Menu, pos: Pos)
    requires |pos| == 1 && At(m, pos).Node?
    ensures Path(m, pos) == Own(m, pos) && "" + Own(m, pos) == Own(m, pos)
    ensures At(m, pos) == Nth(m, pos[0])
  {
  }

  /** One entry's component behind `front`. */
  method PutOwn(root: Menu, pos: Pos, buf: array<char>, at: nat, ghost front: string) returns (end: nat)
    requires pos != [] && At(root, pos).Node? && at <= buf.Length && buf.Length > 0
    requires |pos| > 1 ==> At(root, pos[..|pos| - 1]).Node?
    requires |pos| > 1 ==> Nth(At(root, pos[..|pos| - 1]).sub, pos[|pos| - 1]) == At(root, pos)
    requires |pos| == 1 ==> Nth(root, pos[0]) == At(root, pos)
    requires OwnNumber(root, pos) < MAX_DUP
    requires |front| < buf.Length ==> at == |front| && buf[..at] == front
    modifies buf
    ensures at <= end <= buf.Length && (at < buf.Length ==> end < buf.Length)
    ensures |front + Own(root, pos)| < buf.Length ==> end == |front + Own(root, pos)| && buf[..end] == front + Own(root, pos)
  {
    hide Escape, Suffix, Path, At;
    var siblings := if |pos| == 1 then root else At(root, pos[..|pos| - 1]).sub;
    var e := At(root, pos);
    var n;
    ghost var part;
    n, part := EscapeName(e.name, buf, at);
    var dup := SiblingDupIndex(siblings, pos[|pos| - 1]);
    end := PutSuffix(dup, buf, at + n);
    assert front + Own(root, pos) == front + Escape(e.name) + Suffix(dup);
  }
}
