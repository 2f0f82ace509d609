/** The strings with given UTF-8 bytes, in order: the next one and the one before it. */
module Respelling {
  import opened Bytes
  import opened Unicode

  /** A unit that spells U+FFFD when it stands alone. */
  predicate Lost(u: Unit) {
    Lead(u) || Trail(u) || u == REPLACEMENT
  }

  predicate StartsTrail(t: JsString) {
    t != [] && Trail(t[0])
  }

  /** `u` spells what `t` spells, also right behind a lone leading surrogate when `lone` holds. */
  predicate Respells(t: JsString, u: JsString, lone: bool) {
    Scalars(u) == Scalars(t) && (lone ==> !StartsTrail(u))
  }

  predicate Less(a: seq<int>, b: seq<int>) {
    LexLe(a, b) && a != b
  }

  /** The next larger lost unit; behind a lone leading surrogate a trailing one would complete it. */
  function Raised(u: Unit, lone: bool): (v: Option<Unit>)
    requires Lost(u)
  {
    if u == REPLACEMENT then None
    else if u == 0xDFFF || (lone && u >= 0xDBFF) then Some(REPLACEMENT)
    else Some(u + 1)
  }

  function Lowered(u: Unit, lone: bool): (v: Option<Unit>)
    requires Lost(u)
  {
    if u == 0xD800 then None
    else if u == REPLACEMENT then Some(if lone then 0xDBFF else 0xDFFF)
    else Some(u - 1)
  }

  /** Every lost unit at its smallest. */
  function Least(t: JsString): JsString {
    if t == [] then []
    else if StartsPair(t) then t[..2] + Least(t[2..])
    else [if Lost(t[0]) then 0xD800 else t[0]] + Least(t[1..])
  }

  /** Every lost unit at its largest. */
  function Greatest(t: JsString): JsString {
    if t == [] then []
    else if StartsPair(t) then t[..2] + Greatest(t[2..])
    else [if Lost(t[0]) then REPLACEMENT else t[0]] + Greatest(t[1..])
  }

  function Prefixed(p: JsString, r: Option<JsString>): Option<JsString> {
    if r.Some? then Some(p + r.value) else None
  }

  /** The smallest string above `t` with its bytes. */
  function After(t: JsString, lone: bool): Option<JsString> {
    if t == [] then None
    else if StartsPair(t) then Prefixed(t[..2], After(t[2..], false))
    else if !Lost(t[0]) then Prefixed(t[..1], After(t[1..], false))
    else
      var rest := After(t[1..], Lead(t[0]));
      if rest.Some? then Some([t[0]] + rest.value)
      else if Raised(t[0], lone).Some? then Some([Raised(t[0], lone).value] + Least(t[1..]))
      else None
  }

  /** The largest string below `t` with its bytes. */
  function Before(t: JsString, lone: bool): Option<JsString> {
    if t == [] then None
    else if StartsPair(t) then Prefixed(t[..2], Before(t[2..], false))
    else if !Lost(t[0]) then Prefixed(t[..1], Before(t[1..], false))
    else
      var rest := Before(t[1..], Lead(t[0]));
      if rest.Some? then Some([t[0]] + rest.value)
      else if Lowered(t[0], lone).Some? then Some([Lowered(t[0], lone).value] + Greatest(t[1..]))
      else None
  }

  // ----- unit by unit

  /** A string that spells the same has the same units wherever a unit is not lost. */
  lemma SpelledAlike(t: JsString, u: JsString)
    requires Scalars(u) == Scalars(t)
    ensures t == [] ==> u == []
    ensures t != [] && StartsPair(t) ==> StartsPair(u) && u[..2] == t[..2] && Scalars(u[2..]) == Scalars(t[2..])
    ensures t != [] && !StartsPair(t) ==>
              && u != [] && !StartsPair(u) && Scalars(u[1..]) == Scalars(t[1..])
              && (if Lost(t[0]) then Lost(u[0]) && (Lead(u[0]) ==> !StartsTrail(u[1..])) else u[0] == t[0])
  {
    if t != [] {
      assert u != [];
      assert Scalars(t)[0] == Scalars(u)[0];
      assert Scalars(t)[1..] == if StartsPair(t) then Scalars(t[2..]) else Scalars(t[1..]);
      assert Scalars(u)[1..] == if StartsPair(u) then Scalars(u[2..]) else Scalars(u[1..]);
    }
  }

  /** A lost unit in front spells U+FFFD unless it completes a pair. */
  lemma LostInFront(u: Unit, r: JsString)
    requires Lost(u) && (Lead(u) ==> !StartsTrail(r))
    ensures Scalars([u] + r) == [REPLACEMENT] + Scalars(r)
  {
    assert ([u] + r)[1..] == r;
  }

  lemma PlainInFront(u: Unit, r: JsString)
    requires !Lost(u)
    ensures Scalars([u] + r) == [u] + Scalars(r)
  {
    assert ([u] + r)[1..] == r;
  }

  lemma PairInFront(p: JsString, r: JsString)
    requires |p| == 2 && StartsPair(p)
    ensures StartsPair(p + r) && Scalars(p + r) == Scalars(p) + Scalars(r)
  {
    assert (p + r)[2..] == r && p[2..] == [];
  }

  /** Two strings that differ in front, or behind the same units, are in order as they differ. */
  lemma LessBehind(p: JsString, a: JsString, b: JsString)
    ensures LexLe(p + a, p + b) <==> LexLe(a, b)
    ensures Less(p + a, p + b) <==> Less(a, b)
  {
    LexPrefix(p, a, b);
    assert (p + a)[|p|..] == a && (p + b)[|p|..] == b;
  }

  lemma {:induction false} LeastSpells(t: JsString)
    ensures Scalars(Least(t)) == Scalars(t) && !StartsTrail(Least(t))
    decreases |t|
  {
    if t != [] {
      if StartsPair(t) {
        LeastSpells(t[2..]);
        PairInFront(t[..2], Least(t[2..]));
        PairInFront(t[..2], t[2..]);
        assert t == t[..2] + t[2..];
      } else {
        LeastSpells(t[1..]);
        if Lost(t[0]) {
          LostInFront(0xD800, Least(t[1..]));
        } else {
          PlainInFront(t[0], Least(t[1..]));
        }
      }
    }
  }

  lemma {:induction false} GreatestSpells(t: JsString)
    ensures Scalars(Greatest(t)) == Scalars(t) && !StartsTrail(Greatest(t))
    decreases |t|
  {
    if t != [] {
      if StartsPair(t) {
        GreatestSpells(t[2..]);
        PairInFront(t[..2], Greatest(t[2..]));
        PairInFront(t[..2], t[2..]);
        assert t == t[..2] + t[2..];
      } else {
        GreatestSpells(t[1..]);
        if Lost(t[0]) {
          LostInFront(REPLACEMENT, Greatest(t[1..]));
        } else {
          PlainInFront(t[0], Greatest(t[1..]));
        }
      }
    }
  }

  lemma {:induction false} BetweenBoth(t: JsString, u: JsString)
    requires Scalars(u) == Scalars(t)
    ensures LexLe(Least(t), u) && LexLe(u, Greatest(t))
    decreases |t|
  {
    SpelledAlike(t, u);
    if t != [] {
      if StartsPair(t) {
        BetweenBoth(t[2..], u[2..]);
        assert u == t[..2] + u[2..];
        LessBehind(t[..2], Least(t[2..]), u[2..]);
        LessBehind(t[..2], u[2..], Greatest(t[2..]));
      } else {
        BetweenBoth(t[1..], u[1..]);
      }
    }
  }

  /** A string behind a lone leading surrogate, without its own first unit. */
  lemma Behind(t: JsString)
    requires t != [] && !StartsPair(t)
    ensures Lead(t[0]) ==> !StartsTrail(t[1..])
    ensures t == t[..1] + t[1..] && t[..1] == [t[0]]
  {
  }

  lemma {:induction false} AfterSpells(t: JsString, lone: bool)
    requires lone ==> !StartsTrail(t)
    ensures var n := After(t, lone); n.Some? ==> Respells(t, n.value, lone) && Less(t, n.value)
    decreases |t|
  {
    hide Scalars;
    if After(t, lone).Some? {
      if StartsPair(t) {
        AfterSpells(t[2..], false);
        assert t == t[..2] + t[2..];
        InFrontOfPair(t, After(t[2..], false).value);
      } else {
        Behind(t);
        AfterSpells(t[1..], Lead(t[0]));
        AfterSpells(t[1..], false);
        LeastSpells(t[1..]);
        if !Lost(t[0]) {
          InFrontOfOne(t, t[0], After(t[1..], false).value);
        } else if After(t[1..], Lead(t[0])).Some? {
          InFrontOfOne(t, t[0], After(t[1..], Lead(t[0])).value);
        } else {
          InFrontOfOne(t, Raised(t[0], lone).value, Least(t[1..]));
        }
      }
    }
  }

  /** The same pair in front of another spelling of the rest. */
  lemma InFrontOfPair(t: JsString, r: JsString)
    requires t != [] && StartsPair(t) && Scalars(r) == Scalars(t[2..])
    ensures var u := t[..2] + r;
            && Scalars(u) == Scalars(t) && !StartsTrail(u)
            && (Less(t, u) <==> Less(t[2..], r)) && (Less(u, t) <==> Less(r, t[2..]))
  {
    assert t == t[..2] + t[2..];
    PairInFront(t[..2], r);
    PairInFront(t[..2], t[2..]);
    LessBehind(t[..2], t[2..], r);
    LessBehind(t[..2], r, t[2..]);
  }

  /** Another lost unit, or the same one, in front of another spelling of the rest. */
  lemma InFrontOfOne(t: JsString, v: Unit, r: JsString)
    requires t != [] && !StartsPair(t) && Scalars(r) == Scalars(t[1..])
    requires if Lost(t[0]) then Lost(v) && (Lead(v) ==> !StartsTrail(r)) else v == t[0]
    ensures var u := [v] + r;
            && Scalars(u) == Scalars(t)
            && (v > t[0] ==> Less(t, u)) && (v < t[0] ==> Less(u, t))
            && (v == t[0] ==> (Less(t, u) <==> Less(t[1..], r)) && (Less(u, t) <==> Less(r, t[1..])))
  {
    Behind(t);
    if Lost(t[0]) {
      LostInFront(v, r);
      LostInFront(t[0], t[1..]);
    } else {
      PlainInFront(v, r);
      PlainInFront(t[0], t[1..]);
    }
    LessBehind([t[0]], t[1..], r);
    LessBehind([t[0]], r, t[1..]);
    assert t == [t[0]] + t[1..];
  }

  /** No string with these bytes stands between `t` and the one after it. */
  lemma {:induction false} AfterIsNext(t: JsString, lone: bool, u: JsString)
    requires (lone ==> !StartsTrail(t)) && Respells(t, u, lone) && Less(t, u)
    ensures After(t, lone).Some? && LexLe(After(t, lone).value, u)
    decreases |t|
  {
    hide Scalars;
    SpelledAlike(t, u);
    if StartsPair(t) {
      assert t == t[..2] + t[2..] && u == t[..2] + u[2..];
      LessBehind(t[..2], t[2..], u[2..]);
      AfterIsNext(t[2..], false, u[2..]);
      LessBehind(t[..2], After(t[2..], false).value, u[2..]);
    } else {
      Behind(t);
      Behind(u);
      assert t == [t[0]] + t[1..] && u == [u[0]] + u[1..];
      if u[0] == t[0] {
        LessBehind([t[0]], t[1..], u[1..]);
        AfterIsNext(t[1..], Lost(t[0]) && Lead(t[0]), u[1..]);
        LessBehind([t[0]], After(t[1..], Lost(t[0]) && Lead(t[0])).value, u[1..]);
      } else {
        BetweenBoth(t[1..], u[1..]);
      }
    }
  }

  lemma {:induction false} BeforeSpells(t: JsString, lone: bool)
    requires lone ==> !StartsTrail(t)
    ensures var n := Before(t, lone); n.Some? ==> Respells(t, n.value, lone) && Less(n.value, t)
    decreases |t|
  {
    hide Scalars;
    if Before(t, lone).Some? {
      if StartsPair(t) {
        BeforeSpells(t[2..], false);
        InFrontOfPair(t, Before(t[2..], false).value);
      } else {
        Behind(t);
        BeforeSpells(t[1..], Lead(t[0]));
        BeforeSpells(t[1..], false);
        GreatestSpells(t[1..]);
        if !Lost(t[0]) {
          InFrontOfOne(t, t[0], Before(t[1..], false).value);
        } else if Before(t[1..], Lead(t[0])).Some? {
          InFrontOfOne(t, t[0], Before(t[1..], Lead(t[0])).value);
        } else {
          InFrontOfOne(t, Lowered(t[0], lone).value, Greatest(t[1..]));
        }
      }
    }
  }

  lemma {:induction false} BeforeIsLast(t: JsString, lone: bool, u: JsString)
    requires (lone ==> !StartsTrail(t)) && Respells(t, u, lone) && Less(u, t)
    ensures Before(t, lone).Some? && LexLe(u, Before(t, lone).value)
    decreases |t|
  {
    hide Scalars;
    SpelledAlike(t, u);
    if StartsPair(t) {
      assert t == t[..2] + t[2..] && u == t[..2] + u[2..];
      LessBehind(t[..2], u[2..], t[2..]);
      BeforeIsLast(t[2..], false, u[2..]);
      LessBehind(t[..2], u[2..], Before(t[2..], false).value);
    } else {
      Behind(t);
      Behind(u);
      assert t == [t[0]] + t[1..] && u == [u[0]] + u[1..];
      if u[0] == t[0] {
        LessBehind([t[0]], u[1..], t[1..]);
        BeforeIsLast(t[1..], Lost(t[0]) && Lead(t[0]), u[1..]);
        LessBehind([t[0]], u[1..], Before(t[1..], Lost(t[0]) && Lead(t[0])).value);
      } else {
        BetweenBoth(t[1..], u[1..]);
      }
    }
  }

  function Next(t: JsString): Option<JsString> {
    After(t, false)
  }

  function Previous(t: JsString): Option<JsString> {
    Before(t, false)
  }

  /** The next string with the bytes of `t`, and the one before it, are those and no others. */
  lemma NeighboursExact(t: JsString, u: JsString)
    ensures Next(t).Some? ==> Utf8(Next(t).value) == Utf8(t) && Less(t, Next(t).value)
    ensures Previous(t).Some? ==> Utf8(Previous(t).value) == Utf8(t) && Less(Previous(t).value, t)
    ensures Utf8(u) == Utf8(t) && u != t ==>
              || (Next(t).Some? && LexLe(Next(t).value, u))
              || (Previous(t).Some? && LexLe(u, Previous(t).value))
  {
    hide Scalars;
    AfterSpells(t, false);
    BeforeSpells(t, false);
    if Utf8(u) == Utf8(t) && u != t {
      SameBytes(u, t);
      LexTotal(t, u);
      if Less(t, u) {
        AfterIsNext(t, false, u);
      } else {
        BeforeIsLast(t, false, u);
      }
    }
  }
}
