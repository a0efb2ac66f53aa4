/** Time stamps with attosecond fields and their arithmetic (runit/src/taia_add.c, runit/src/taia_less.c). */
module Taia {
  const GIGA: nat := 1_000_000_000
  /** Attoseconds in a second. */
  const SECOND: nat := 1_000_000_000_000_000_000

  class Taia {
    var sec: nat
    var nano: nat
    var atto: nat

    constructor (sec: nat)
      ensures Normal() && Value() == sec * SECOND
    {
      this.sec, this.nano, this.atto := sec, 0, 0;
    }

    ghost predicate Normal()
      reads this
    {
      nano < GIGA && atto < GIGA
    }

    /** The stamp in attoseconds. */
    ghost function Value(): nat
      reads this
    {
      sec * SECOND + nano * GIGA + atto
    }
  }

  /** `taia_add`: `t` may be `u` or `v` itself. */
  method Add(t: Taia, u: Taia, v: Taia)
    requires u.Normal() && v.Normal()
    modifies t
    ensures t.Normal() && t.Value() == old(u.Value()) + old(v.Value())
  {
    t.sec := u.sec + v.sec;
    t.nano := u.nano + v.nano;
    t.atto := u.atto + v.atto;
    if t.atto > 999_999_999 {
      t.atto := t.atto - GIGA;
      t.nano := t.nano + 1;
    }
    if t.nano > 999_999_999 {
      t.nano := t.nano - GIGA;
      t.sec := t.sec + 1;
    }
  }

  /** `taia_less`: field by field, it decides the order of the stamps' values. */
  predicate Less(t: Taia, u: Taia)
    reads t, u
    ensures t.Normal() && u.Normal() ==> (Less(t, u) <==> t.Value() < u.Value())
  {
    if t.sec < u.sec then true
    else if t.sec > u.sec then false
    else if t.nano < u.nano then true
    else if t.nano > u.nano then false
    else t.atto < u.atto
  }

  /** Set a stamp from a clock reading. */
  method Set(t: Taia, reading: nat)
    modifies t
    ensures t.Normal() && t.Value() == reading
  {
    t.sec := reading / SECOND;
    t.nano := reading % SECOND / GIGA;
    t.atto := reading % GIGA;
    SplitReading(reading);
  }

  lemma SplitReading(r: nat)
    ensures r == r / SECOND * SECOND + r % SECOND / GIGA * GIGA + r % GIGA
    ensures r % SECOND / GIGA < GIGA && r % GIGA < GIGA
  {
    var x := r % SECOND;
    assert SECOND == GIGA * GIGA;
    assert r == r / SECOND * SECOND + x;
    assert x == x / GIGA * GIGA + x % GIGA;
    assert r % GIGA == x % GIGA by {
      assert r == (r / SECOND * GIGA + x / GIGA) * GIGA + x % GIGA;
    }
  }
}
