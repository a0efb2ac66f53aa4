/**
 The optimal parse of the LimLZ packer (limine/tools/limlzpack.c): a backward dynamic program
 over the suffixes of the input, with a per-position choice of match length.
 */
module LimLzParse {
  import opened LimLzMatches
  import opened LimLzFormat

  /** `(size_t)-1`: the cost of a suffix with no encoding. */
  const NO_PARSE: nat := 0xffff_ffff_ffff_ffff
  const INT32_MAX: nat := 0x7fff_ffff

  datatype ParseChoice = ParseChoice(lit: nat, mlen: nat, off: nat)

  /** The cap on a match length at `j`. */
  function Limit(n: nat, mch: seq<MatchChoice>, j: nat): nat
    requires j < n == |mch|
  {
    var lim := if mch[j].len > MAX_MATCH then MAX_MATCH else mch[j].len;
    if j + lim > n then n - j else lim
  }

  function MatchPart(off: nat, ml: nat): nat
    requires ml >= 4
  {
    OffsetCost(off) + (if ml - 4 >= 7 then 1 else 0)
  }

  /** From `t`, literals up to `j` and a match from there to `e`. */
  ghost predicate LegalSpan(n: nat, mch: seq<MatchChoice>, t: nat, j: int, e: int) {
    t <= j < e && LegalMatch(n, mch, t, j - t, e - j)
  }

  /** `b` is the cheapest way to start a match at `j`, or empty when no length leads anywhere. */
  ghost predicate CheapestMatch(n: nat, mch: seq<MatchChoice>, dp: seq<nat>, j: nat, b: MatchChoice)
    requires j < n == |mch| && |dp| == n + 1
  {
    && (b.len != 0 ==>
          && mch[j].len >= 4 && 4 <= b.len <= Limit(n, mch, j) && b.off == mch[j].off
          && dp[j + b.len] != NO_PARSE
          && (forall e :: j + 4 <= e <= j + Limit(n, mch, j) && dp[e] != NO_PARSE ==>
                MatchPart(b.off, b.len) + dp[j + b.len] <= MatchPart(b.off, e - j) + dp[e]))
    && (b.len == 0 && mch[j].len >= 4 ==>
          forall e :: j + 4 <= e <= j + Limit(n, mch, j) ==> dp[e] == NO_PARSE)
  }

  /** `dp[t]` is within reach of the counter, below every single step, and met by the pick. */
  ghost predicate BellmanAt(n: nat, mch: seq<MatchChoice>, dp: seq<nat>, pick: seq<ParseChoice>, t: nat)
    requires t < n == |mch| && |dp| == |pick| == n + 1
  {
    && (n - t <= MAX_LITERALS ==> dp[t] <= LiteralCost(n - t))
    && BelowMatches(n, mch, dp, t, n, dp[t])
    && Achieved(n, mch, dp, t, dp[t], pick[t])
  }

  ghost predicate Bellman(n: nat, mch: seq<MatchChoice>, dp: seq<nat>, pick: seq<ParseChoice>, from: nat) {
    && |mch| == n && |dp| == |pick| == n + 1 && from <= n
    && dp[n] == 0
    && (forall t :: from <= t < n ==> BellmanAt(n, mch, dp, pick, t))
  }

  // ---- The two inner loops ---------------------------------------------------------------

  /** The choice of a match length at `i`. */
  method ChooseMatch(n: nat, mch: seq<MatchChoice>, dp: array<nat>, i: nat) returns (b: MatchChoice)
    requires i < n == |mch| && dp.Length == n + 1 && n <= INT32_MAX
    requires forall t :: i < t <= n ==> dp[t] == NO_PARSE || dp[t] <= 2 * (n - t)
    ensures CheapestMatch(n, mch, dp[..], i, b)
  {
    b := MatchChoice(0, 0);
    if mch[i].len >= 4 {
      var lim := Limit(n, mch, i);
      var offBytes := OffsetCost(mch[i].off);
      var mcost, mlen: nat := NO_PARSE, 0;
      var ml := 4;
      while ml <= lim
        invariant ml >= 4 && (ml == 4 || ml <= lim + 1)
        invariant mlen == 0 ==> mcost == NO_PARSE
        invariant mlen == 0 ==> forall e :: i + 4 <= e < i + ml ==> dp[e] == NO_PARSE
        invariant mlen != 0 ==> 4 <= mlen <= lim && dp[i + mlen] != NO_PARSE
                                && mcost == MatchPart(mch[i].off, mlen) + dp[i + mlen] <= 2 * n + 3
        invariant mlen != 0 ==> forall e :: i + 4 <= e < i + ml && dp[e] != NO_PARSE ==>
          mcost <= MatchPart(mch[i].off, e - i) + dp[e]
      {
        if dp[i + ml] != NO_PARSE {
          var c := offBytes + (if ml - 4 >= 7 then 1 else 0) + dp[i + ml];
          if c < mcost {
            mcost, mlen := c, ml;
          }
        }
        ml := ml + 1;
      }
      if mlen != 0 {
        b := MatchChoice(mlen, mch[i].off);
      }
    }
  }

  ghost predicate ChosenFor(n: nat, mch: seq<MatchChoice>, dp: seq<nat>, i: nat, upto: nat, cost: nat, p: ParseChoice)
    requires i < n == |mch| && |dp| == n + 1
  {
    && (n - i <= MAX_LITERALS ==> cost <= LiteralCost(n - i))
    && BelowMatches(n, mch, dp, i, upto, cost)
    && Achieved(n, mch, dp, i, cost, p)
  }

  /** `cost` is at most that of any step at `i` whose match starts before `upto`. */
  ghost predicate BelowMatches(n: nat, mch: seq<MatchChoice>, dp: seq<nat>, i: nat, upto: nat, cost: nat)
    requires |mch| == n && |dp| == n + 1
  {
    forall j, e :: j < upto && LegalSpan(n, mch, i, j, e) && dp[e] != NO_PARSE ==>
      cost <= MatchCost(j - i, e - j, mch[j].off) + dp[e]
  }

  /** The step `p` at `i` costs `cost`, and that is within twice the bytes it leaves. */
  ghost predicate Achieved(n: nat, mch: seq<MatchChoice>, dp: seq<nat>, i: nat, cost: nat, p: ParseChoice)
    requires i < n == |mch| && |dp| == n + 1
  {
    && (cost == NO_PARSE || cost <= 2 * (n - i))
    && (cost != NO_PARSE ==>
          if p.mlen == 0 then p.lit == n - i <= MAX_LITERALS && cost == LiteralCost(n - i)
          else
            && LegalMatch(n, mch, i, p.lit, p.mlen) && p.off == mch[i + p.lit].off
            && dp[i + p.lit + p.mlen] != NO_PARSE
            && cost == MatchCost(p.lit, p.mlen, p.off) + dp[i + p.lit + p.mlen])
  }

  /** The choice of a literal run and the match behind it at `i`. */
  method ChooseStep(n: nat, mch: seq<MatchChoice>, dp: array<nat>, bestm: array<MatchChoice>, i: nat)
    returns (cost: nat, p: ParseChoice)
    requires i < n == |mch| && dp.Length == n + 1 && bestm.Length == n && n <= INT32_MAX
    requires forall t :: i < t <= n ==> dp[t] == NO_PARSE || dp[t] <= 2 * (n - t)
    requires forall j :: i <= j < n ==> CheapestMatch(n, mch, dp[..], j, bestm[..][j])
    ensures ChosenFor(n, mch, dp[..], i, n, cost, p)
  {
    if n - i <= MAX_LITERALS {
      cost, p := LiteralCost(n - i), ParseChoice(n - i, 0, 0);
    } else {
      cost, p := NO_PARSE, ParseChoice(0, 0, 0);
    }
    ghost var d := dp[..];
    var j := i;
    while j < n && j - i <= MAX_LITERALS
      invariant i <= j <= n && j - i <= MAX_LITERALS + 1
      invariant ChosenFor(n, mch, d, i, j, cost, p)
    {
      ghost var cost0, p0 := cost, p;
      assert CheapestMatch(n, mch, d, j, bestm[..][j]);
      if bestm[j].len != 0 {
        var c := LiteralCost(j - i) + (MatchPart(bestm[j].off, bestm[j].len) + dp[j + bestm[j].len]);
        if c < cost {
          cost, p := c, ParseChoice(j - i, bestm[j].len, bestm[j].off);
        }
      }
      ChosenExtends(n, mch, d, i, j, bestm[j], cost0, p0, cost, p);
      j := j + 1;
    }
  }

  /** The updated choice is met by its own step. */
  lemma ChosenAchieved(n: nat, mch: seq<MatchChoice>, dp: seq<nat>, i: nat, j: nat, b: MatchChoice,
                       cost0: nat, p0: ParseChoice, cost: nat, p: ParseChoice)
    requires i <= j < n == |mch| && |dp| == n + 1 && j - i <= MAX_LITERALS && n <= INT32_MAX
    requires forall t :: i < t <= n ==> dp[t] == NO_PARSE || dp[t] <= 2 * (n - t)
    requires CheapestMatch(n, mch, dp, j, b)
    requires Achieved(n, mch, dp, i, cost0, p0)
    requires var c := if b.len == 0 then NO_PARSE
                      else LiteralCost(j - i) + (MatchPart(b.off, b.len) + dp[j + b.len]);
             if c < cost0 then cost == c && p == ParseChoice(j - i, b.len, b.off)
             else cost == cost0 && p == p0
    ensures Achieved(n, mch, dp, i, cost, p) && cost <= cost0
  {
  }

  /** Considering one more match position keeps the choice optimal so far. */
  lemma ChosenExtends(n: nat, mch: seq<MatchChoice>, dp: seq<nat>, i: nat, j: nat, b: MatchChoice,
                      cost0: nat, p0: ParseChoice, cost: nat, p: ParseChoice)
    requires i <= j < n == |mch| && |dp| == n + 1 && j - i <= MAX_LITERALS && n <= INT32_MAX
    requires forall t :: i < t <= n ==> dp[t] == NO_PARSE || dp[t] <= 2 * (n - t)
    requires CheapestMatch(n, mch, dp, j, b)
    requires ChosenFor(n, mch, dp, i, j, cost0, p0)
    requires var c := if b.len == 0 then NO_PARSE
                      else LiteralCost(j - i) + (MatchPart(b.off, b.len) + dp[j + b.len]);
             if c < cost0 then cost == c && p == ParseChoice(j - i, b.len, b.off)
             else cost == cost0 && p == p0
    ensures ChosenFor(n, mch, dp, i, j + 1, cost, p)
  {
    hide Achieved, BelowMatches, CheapestMatch;
    ChosenAchieved(n, mch, dp, i, j, b, cost0, p0, cost, p);
    BelowExtends(n, mch, dp, i, j, b, cost0, cost);
  }

  lemma BelowExtends(n: nat, mch: seq<MatchChoice>, dp: seq<nat>, i: nat, j: nat, b: MatchChoice, cost0: nat, cost: nat)
    requires i <= j < n == |mch| && |dp| == n + 1
    requires CheapestMatch(n, mch, dp, j, b)
    requires BelowMatches(n, mch, dp, i, j, cost0) && cost <= cost0
    requires b.len != 0 ==> cost <= LiteralCost(j - i) + (MatchPart(b.off, b.len) + dp[j + b.len])
    ensures BelowMatches(n, mch, dp, i, j + 1, cost)
  {
    forall e | LegalSpan(n, mch, i, j, e) && dp[e] != NO_PARSE
      ensures cost <= MatchCost(j - i, e - j, mch[j].off) + dp[e]
    {
      assert j + 4 <= e <= j + Limit(n, mch, j);
    }
  }

  /** The dynamic program: costs and choices for every suffix. */
  method BuildParse(n: nat, mch: seq<MatchChoice>) returns (dp: array<nat>, pick: array<ParseChoice>)
    requires |mch| == n <= INT32_MAX
    ensures dp.Length == pick.Length == n + 1
    ensures Bellman(n, mch, dp[..], pick[..], 0)
  {
    dp := new nat[n + 1];
    pick := new ParseChoice[n + 1](_ => ParseChoice(0, 0, 0));
    var bestm := new MatchChoice[n](_ => MatchChoice(0, 0));
    dp[n] := 0;
    var i := n;
    while i > 0
      invariant i <= n
      invariant dp[n] == 0
      invariant Bellman(n, mch, dp[..], pick[..], i)
      invariant forall j :: i <= j < n ==> CheapestMatch(n, mch, dp[..], j, bestm[..][j])
    {
      i := i - 1;
      ghost var dp0, pick0 := dp[..], pick[..];
      BellmanBounds(n, mch, dp0, pick0, i + 1);
      bestm[i] := ChooseMatch(n, mch, dp, i);
      ghost var best := bestm[..];
      var cost, p := ChooseStep(n, mch, dp, bestm, i);
      dp[i] := cost;
      pick[i] := p;
      assert dp[..] == dp0[i := cost] && pick[..] == pick0[i := p];
      TableGrows(n, mch, dp0, pick0, best, i, cost, p);
      assert bestm[..] == best;
    }
  }

  lemma BellmanBounds(n: nat, mch: seq<MatchChoice>, dp: seq<nat>, pick: seq<ParseChoice>, from: nat)
    requires Bellman(n, mch, dp, pick, from)
    ensures forall t :: from <= t <= n ==> dp[t] == NO_PARSE || dp[t] <= 2 * (n - t)
  {
    forall t | from <= t <= n ensures dp[t] == NO_PARSE || dp[t] <= 2 * (n - t) {
      assert t == n || BellmanAt(n, mch, dp, pick, t);
    }
  }

  /** Filling entry `i` extends the table's equations to `i` and disturbs none behind it. */
  lemma TableGrows(n: nat, mch: seq<MatchChoice>, dp: seq<nat>, pick: seq<ParseChoice>, best: seq<MatchChoice>,
                   i: nat, cost: nat, p: ParseChoice)
    requires i < n && Bellman(n, mch, dp, pick, i + 1) && |best| == n
    requires forall j :: i <= j < n ==> CheapestMatch(n, mch, dp, j, best[j])
    requires ChosenFor(n, mch, dp, i, n, cost, p)
    ensures Bellman(n, mch, dp[i := cost], pick[i := p], i)
    ensures forall j :: i <= j < n ==> CheapestMatch(n, mch, dp[i := cost], j, best[j])
  {
    var dp1, pick1 := dp[i := cost], pick[i := p];
    forall t | i <= t < n ensures BellmanAt(n, mch, dp1, pick1, t) {
      if t > i {
        assert BellmanAt(n, mch, dp, pick, t);
        BellmanFrame(n, mch, dp, pick, dp1, pick1, t);
      } else {
        ChosenIsBellman(n, mch, dp, dp1, pick1, i, cost, p);
      }
    }
    forall j | i <= j < n ensures CheapestMatch(n, mch, dp1, j, best[j]) {
      CheapestFrame(n, mch, dp, dp1, j, best[j]);
    }
  }

  lemma ChosenIsBellman(n: nat, mch: seq<MatchChoice>, dp: seq<nat>, dp1: seq<nat>, pick1: seq<ParseChoice>,
                        i: nat, cost: nat, p: ParseChoice)
    requires i < n == |mch| && |dp| == |dp1| == |pick1| == n + 1
    requires ChosenFor(n, mch, dp, i, n, cost, p)
    requires dp1[i] == cost && pick1[i] == p
    requires forall x :: i < x <= n ==> dp[x] == dp1[x]
    ensures BellmanAt(n, mch, dp1, pick1, i)
  {
  }

  lemma BellmanFrame(n: nat, mch: seq<MatchChoice>, dp0: seq<nat>, pick0: seq<ParseChoice>,
                     dp1: seq<nat>, pick1: seq<ParseChoice>, t: nat)
    requires t < n == |mch| && |dp0| == |pick0| == |dp1| == |pick1| == n + 1
    requires forall x :: t <= x <= n ==> dp0[x] == dp1[x] && pick0[x] == pick1[x]
    requires BellmanAt(n, mch, dp0, pick0, t)
    ensures BellmanAt(n, mch, dp1, pick1, t)
  {
  }

  lemma CheapestFrame(n: nat, mch: seq<MatchChoice>, dp0: seq<nat>, dp1: seq<nat>, j: nat, b: MatchChoice)
    requires j < n == |mch| && |dp0| == |dp1| == n + 1
    requires forall x :: j < x <= n ==> dp0[x] == dp1[x]
    requires CheapestMatch(n, mch, dp0, j, b)
    ensures CheapestMatch(n, mch, dp1, j, b)
  {
  }

  // ---- Optimality ------------------------------------------------------------------------

  /** The parse obtained by following the picks from `i`. */
  ghost function PickedParse(n: nat, mch: seq<MatchChoice>, dp: seq<nat>, pick: seq<ParseChoice>, i: nat): seq<Step>
    requires Bellman(n, mch, dp, pick, 0) && i <= n && dp[i] != NO_PARSE
    decreases n - i
  {
    if i == n then []
    else
      assert BellmanAt(n, mch, dp, pick, i);
      if pick[i].mlen == 0 then [Literals(pick[i].lit)]
      else [Match(pick[i].lit, pick[i].mlen, pick[i].off)]
           + PickedParse(n, mch, dp, pick, i + pick[i].lit + pick[i].mlen)
  }

  lemma LegalMatchBounds(n: nat, mch: seq<MatchChoice>, i: nat, lit: nat, ml: nat)
    requires LegalMatch(n, mch, i, lit, ml)
    ensures |mch| == n && i + lit < n && i + lit + ml <= n && ml >= 4
  {
  }

  /** The picks are a parse, and it costs exactly what the table says. */
  lemma {:induction false} PickedParseCost(n: nat, mch: seq<MatchChoice>, dp: seq<nat>, pick: seq<ParseChoice>, i: nat)
    requires Bellman(n, mch, dp, pick, 0) && i <= n && dp[i] != NO_PARSE
    ensures ValidParse(n, mch, i, PickedParse(n, mch, dp, pick, i))
    ensures Cost(PickedParse(n, mch, dp, pick, i)) == dp[i]
    decreases n - i
  {
    hide BelowMatches, LegalMatch;
    if i < n {
      assert BellmanAt(n, mch, dp, pick, i);
      if pick[i].mlen != 0 {
        LegalMatchBounds(n, mch, i, pick[i].lit, pick[i].mlen);
        var next := i + pick[i].lit + pick[i].mlen;
        PickedParseCost(n, mch, dp, pick, next);
        var p := PickedParse(n, mch, dp, pick, i);
        assert p[1..] == PickedParse(n, mch, dp, pick, next);
      }
    }
  }

  /** No parse of the suffix at `i` is cheaper than the table entry; in particular one exists. */
  lemma {:induction false} TableIsLowerBound(n: nat, mch: seq<MatchChoice>, dp: seq<nat>, pick: seq<ParseChoice>,
                                             i: nat, p: seq<Step>)
    requires Bellman(n, mch, dp, pick, 0) && i <= n <= INT32_MAX
    requires ValidParse(n, mch, i, p)
    ensures dp[i] != NO_PARSE
    ensures dp[i] <= Cost(p)
    decreases |p|
  {
    hide Limit;
    if p != [] {
      assert BellmanAt(n, mch, dp, pick, i);
      if p[0].Match? {
        var j := i + p[0].lit;
        var e := j + p[0].ml;
        TableIsLowerBound(n, mch, dp, pick, e, p[1..]);
        assert e == n || BellmanAt(n, mch, dp, pick, e);
        assert LegalSpan(n, mch, i, j, e);
      }
    }
  }

  /** Some parse covers the whole input. */
  ghost predicate Packable(n: nat, mch: seq<MatchChoice>) {
    exists p :: ValidParse(n, mch, 0, p)
  }

  /** `dp[0]` is the least cost over all parses, and unreachable exactly when there is none. */
  lemma TableIsOptimal(n: nat, mch: seq<MatchChoice>, dp: seq<nat>, pick: seq<ParseChoice>)
    requires Bellman(n, mch, dp, pick, 0) && n <= INT32_MAX
    ensures dp[0] != NO_PARSE <==> Packable(n, mch)
    ensures dp[0] != NO_PARSE ==>
              exists p :: ValidParse(n, mch, 0, p) && Cost(p) == dp[0]
    ensures forall p :: ValidParse(n, mch, 0, p) ==> dp[0] <= Cost(p)
  {
    if dp[0] != NO_PARSE {
      PickedParseCost(n, mch, dp, pick, 0);
    }
    forall p | ValidParse(n, mch, 0, p) ensures dp[0] != NO_PARSE && dp[0] <= Cost(p) {
      TableIsLowerBound(n, mch, dp, pick, 0, p);
    }
  }
}
