/** Which variables an index expression uses, and how the two fixes change that. */
module TileUses {
  import opened TileNormalized

  ghost predicate Within(e: Expr, names: set<nat>) {
    match e
    case Iv(iv) => iv in names
    case Linearize(args, _) => AllWithin(args, names)
  }

  ghost predicate AllWithin(args: seq<Expr>, names: set<nat>) {
    args == [] || (Within(args[0], names) && AllWithin(args[1..], names))
  }

  lemma {:induction false} ValueLocal(e: Expr, names: set<nat>, env: Env, env': Env)
    requires Within(e, names) && forall v :: v in names ==> Get(env, v) == Get(env', v)
    ensures Value(e, env) == Value(e, env')
  {
    if e.Linearize? {
      SumLocal(e.args, e.strides, names, env, env');
    }
  }

  lemma {:induction false} SumLocal(args: seq<Expr>, strides: seq<int>, names: set<nat>, env: Env, env': Env)
    requires AllWithin(args, names) && forall v :: v in names ==> Get(env, v) == Get(env', v)
    ensures Sum(args, strides, env) == Sum(args, strides, env')
  {
    if args != [] && strides != [] {
      ValueLocal(args[0], names, env, env');
      SumLocal(args[1..], strides[1..], names, env, env');
    }
  }

  lemma {:induction false} WithinMore(e: Expr, names: set<nat>, more: set<nat>)
    requires Within(e, names) && names <= more
    ensures Within(e, more)
  {
    if e.Linearize? {
      AllWithinMore(e.args, names, more);
    }
  }

  lemma {:induction false} AllWithinMore(args: seq<Expr>, names: set<nat>, more: set<nat>)
    requires AllWithin(args, names) && names <= more
    ensures AllWithin(args, more)
  {
    if args != [] {
      WithinMore(args[0], names, more);
      AllWithinMore(args[1..], names, more);
    }
  }

  lemma {:induction false} AllWithinJoin(a: seq<Expr>, b: seq<Expr>, names: set<nat>)
    requires AllWithin(a, names) && AllWithin(b, names)
    ensures AllWithin(a + b, names)
  {
    if a == [] {
      assert a + b == b;
    } else {
      AllWithinJoin(a[1..], b, names);
      assert (a + b)[1..] == a[1..] + b;
    }
  }

  ghost function PartNames(parts: seq<Part>): set<nat> {
    set i | 0 <= i < |parts| :: parts[i].iv
  }

  lemma {:induction false} IvsWithin(parts: seq<Part>, names: set<nat>)
    requires PartNames(parts) <= names
    ensures AllWithin(Ivs(parts), names)
  {
    if parts != [] {
      assert parts[0].iv in PartNames(parts);
      forall v | v in PartNames(parts[1..])
        ensures v in names
      {
        var i :| 0 <= i < |parts[1..]| && parts[1..][i].iv == v;
        assert parts[i + 1].iv in PartNames(parts);
      }
      IvsWithin(parts[1..], names);
      assert Ivs(parts)[1..] == Ivs(parts[1..]);
    }
  }

  lemma TwoWithin(s: Split, names: set<nat>)
    requires s.tile in names && s.point in names
    ensures AllWithin([Iv(s.tile), Iv(s.point)], names)
  {
    var one, two := [Iv(s.point)], [Iv(s.tile), Iv(s.point)];
    assert two[1..] == one && one[1..] == [];
    assert AllWithin(one[1..], names) && AllWithin(one, names);
  }

  /** Splitting brings in the tile and the point only. */
  lemma {:induction false} SplitWithin(args: seq<Expr>, s: Split, names: set<nat>)
    requires AllWithin(args, names) && s.tile in names && s.point in names
    ensures AllWithin(SplitArgs(args, s), names)
  {
    if args != [] {
      if args[0] == Iv(s.source) {
        TwoWithin(s, names);
        AllWithinJoin([Iv(s.tile), Iv(s.point)], args[1..], names);
      } else {
        SplitWithin(args[1..], s, names);
        assert SplitArgs(args, s)[1..] == SplitArgs(args[1..], s);
      }
    }
  }

  lemma {:induction false} FixAWithin(e: Expr, s: Split, names: set<nat>)
    requires WellFormed(e) && Within(e, names) && s.tile in names && s.point in names
    ensures Within(FixA(e, s), names)
  {
    if e.Linearize? {
      FixAAllWithin(e.args, s, names);
      SplitWithin(FixAAll(e.args, s), s, names);
    }
  }

  lemma {:induction false} FixAAllWithin(args: seq<Expr>, s: Split, names: set<nat>)
    requires AllWellFormed(args) && AllWithin(args, names) && s.tile in names && s.point in names
    ensures AllWithin(FixAAll(args, s), names)
  {
    if args != [] {
      FixAWithin(args[0], s, names);
      FixAAllWithin(args[1..], s, names);
      assert FixAAll(args, s)[1..] == FixAAll(args[1..], s);
    }
  }

  /** The second fix removes the old variable altogether. */
  lemma {:induction false} FixBWithin(e: Expr, s: Split, names: set<nat>)
    requires WellFormed(e) && Within(e, names + {s.source})
    requires s.tile in names && s.point in names && PartNames(s.ancestry) <= names
    ensures Within(FixB(e, s), names)
  {
    if e.Linearize? {
      FixBAllWithin(e.args, s, names);
    } else {
      IvsWithin(s.ancestry, names);
      TwoWithin(s, names);
      AllWithinJoin(Ivs(s.ancestry), [Iv(s.tile), Iv(s.point)], names);
    }
  }

  lemma {:induction false} FixBAllWithin(args: seq<Expr>, s: Split, names: set<nat>)
    requires AllWellFormed(args) && AllWithin(args, names + {s.source})
    requires s.tile in names && s.point in names && PartNames(s.ancestry) <= names
    ensures AllWithin(FixBAll(args, s), names)
  {
    if args != [] {
      FixBWithin(args[0], s, names);
      FixBAllWithin(args[1..], s, names);
      assert FixBAll(args, s)[1..] == FixBAll(args[1..], s);
    }
  }

  // ---------------------------------------------------------------------------------------------
  // Tameness in other variables
  // ---------------------------------------------------------------------------------------------

  /** The variable has nothing to do with the split. */
  ghost predicate Foreign(s: Split, iv: nat) {
    iv != s.source && iv != s.tile && iv != s.point && iv !in PartNames(s.ancestry)
  }

  lemma {:induction false} SplitForeign(args: seq<Expr>, strides: seq<int>, s: Split, iv: nat)
    requires |args| == |strides| && Foreign(s, iv)
    ensures Iv(iv) in SplitArgs(args, s) <==> Iv(iv) in args
    ensures UnitTerm(SplitArgs(args, s), SplitStrides(args, strides, s), iv) == UnitTerm(args, strides, iv)
    ensures AllTame(SplitArgs(args, s), iv) == AllTame(args, iv)
  {
    if args != [] {
      var r, q := SplitArgs(args, s), SplitStrides(args, strides, s);
      assert args == [args[0]] + args[1..];
      if args[0] == Iv(s.source) {
        assert r[1..] == [Iv(s.point)] + args[1..] && q[1..] == [strides[0]] + strides[1..];
        assert r[1..][1..] == args[1..] && q[1..][1..] == strides[1..];
        assert UnitTerm(r[1..], q[1..], iv) == UnitTerm(args[1..], strides[1..], iv);
        assert AllTame(r[1..], iv) == AllTame(args[1..], iv);
      } else {
        SplitForeign(args[1..], strides[1..], s, iv);
        assert r[1..] == SplitArgs(args[1..], s) && q[1..] == SplitStrides(args[1..], strides[1..], s);
      }
    }
  }

  lemma {:induction false} FixATame(e: Expr, s: Split, iv: nat)
    requires WellFormed(e) && Tame(e, iv) && Foreign(s, iv)
    ensures Tame(FixA(e, s), iv)
  {
    if e.Linearize? {
      FixAAllTame(e.args, s, iv);
      FixAUnit(e.args, e.strides, s, iv);
      SplitForeign(FixAAll(e.args, s), e.strides, s, iv);
    }
  }

  lemma {:induction false} FixAAllTame(args: seq<Expr>, s: Split, iv: nat)
    requires AllWellFormed(args) && AllTame(args, iv) && Foreign(s, iv)
    ensures AllTame(FixAAll(args, s), iv)
  {
    if args != [] {
      FixATame(args[0], s, iv);
      FixAAllTame(args[1..], s, iv);
      assert FixAAll(args, s)[1..] == FixAAll(args[1..], s);
    }
  }

  lemma LastUnit(point: nat, iv: nat)
    ensures UnitTerm([Iv(point)], [1], iv) && AllTame([Iv(point)], iv)
  {
    assert [Iv(point)][1..] == [];
  }

  /** A list of variables, none of which is `iv` except possibly the last one, with stride one. */
  lemma {:induction false} WhereaboutsUnit(parts: seq<Part>, s: Split, iv: nat)
    requires iv !in PartNames(parts) && iv != s.tile
    ensures UnitTerm(Ivs(parts) + [Iv(s.tile), Iv(s.point)], Sizes(parts) + [s.size as int, 1], iv)
    ensures AllTame(Ivs(parts) + [Iv(s.tile), Iv(s.point)], iv)
  {
    var r, q := Ivs(parts) + [Iv(s.tile), Iv(s.point)], Sizes(parts) + [s.size as int, 1];
    if parts == [] {
      LastUnit(s.point, iv);
      assert r[1..] == [Iv(s.point)] && q[1..] == [1];
    } else {
      assert parts[0].iv in PartNames(parts);
      forall v | v in PartNames(parts[1..])
        ensures v in PartNames(parts)
      {
        var i :| 0 <= i < |parts[1..]| && parts[1..][i].iv == v;
        assert parts[i + 1].iv == v;
      }
      WhereaboutsUnit(parts[1..], s, iv);
      assert r[1..] == Ivs(parts[1..]) + [Iv(s.tile), Iv(s.point)];
      assert q[1..] == Sizes(parts[1..]) + [s.size as int, 1];
    }
  }

  lemma {:induction false} FixBTame(e: Expr, s: Split, iv: nat)
    requires WellFormed(e) && Tame(e, iv) && iv != s.source && iv != s.tile && iv !in PartNames(s.ancestry)
    ensures Tame(FixB(e, s), iv)
  {
    if e.Linearize? {
      FixBAllTame(e.args, e.strides, s, iv);
    } else {
      WhereaboutsUnit(s.ancestry, s, iv);
    }
  }

  lemma {:induction false} FixBAllTame(args: seq<Expr>, strides: seq<int>, s: Split, iv: nat)
    requires AllWellFormed(args) && AllTame(args, iv) && iv != s.source && iv != s.tile && iv !in PartNames(s.ancestry)
    ensures AllTame(FixBAll(args, s), iv)
    ensures Iv(iv) in FixBAll(args, s) <==> Iv(iv) in args
    ensures UnitTerm(FixBAll(args, s), strides, iv) == UnitTerm(args, strides, iv)
  {
    if args != [] {
      FixBTame(args[0], s, iv);
      FixBAllTame(args[1..], if strides == [] then [] else strides[1..], s, iv);
      assert FixBAll(args, s)[1..] == FixBAll(args[1..], s);
      assert args == [args[0]] + args[1..];
    }
  }

  // ---------------------------------------------------------------------------------------------
  // Tameness in the new point variable
  // ---------------------------------------------------------------------------------------------

  lemma {:induction false} AbsentIsTame(e: Expr, iv: nat, names: set<nat>)
    requires Within(e, names) && iv !in names
    ensures Tame(e, iv) && e != Iv(iv)
  {
    if e.Linearize? {
      AllAbsentAreTame(e.args, e.strides, iv, names);
    }
  }

  lemma {:induction false} AllAbsentAreTame(args: seq<Expr>, strides: seq<int>, iv: nat, names: set<nat>)
    requires AllWithin(args, names) && iv !in names
    ensures AllTame(args, iv) && Iv(iv) !in args && UnitTerm(args, strides, iv)
  {
    if args != [] {
      AbsentIsTame(args[0], iv, names);
      AllAbsentAreTame(args[1..], if strides == [] then [] else strides[1..], iv, names);
      assert args == [args[0]] + args[1..];
    }
  }

  lemma {:induction false} SplitPoint(args: seq<Expr>, strides: seq<int>, s: Split)
    requires |args| == |strides| && UnitTerm(args, strides, s.source) && AllTame(args, s.point) && Iv(s.point) !in args
    requires s.tile != s.point
    ensures UnitTerm(SplitArgs(args, s), SplitStrides(args, strides, s), s.point)
    ensures AllTame(SplitArgs(args, s), s.point)
  {
    if args != [] {
      var r, q := SplitArgs(args, s), SplitStrides(args, strides, s);
      assert args == [args[0]] + args[1..];
      if args[0] == Iv(s.source) {
        assert r[1..] == [Iv(s.point)] + args[1..] && q[1..] == [1] + strides[1..];
        assert r[1..][1..] == args[1..];
        assert UnitTerm(r[1..], q[1..], s.point) && AllTame(r[1..], s.point);
      } else {
        SplitPoint(args[1..], strides[1..], s);
        assert r[1..] == SplitArgs(args[1..], s) && q[1..] == SplitStrides(args[1..], strides[1..], s);
      }
    }
  }

  /** Splitting a tame expression leaves one that is tame in the new point variable. */
  lemma {:induction false} FixATamePoint(e: Expr, s: Split, names: set<nat>)
    requires WellFormed(e) && Tame(e, s.source) && Within(e, names) && s.point !in names && s.tile != s.point
    ensures Tame(FixA(e, s), s.point)
  {
    if e.Linearize? {
      FixAAllTamePoint(e.args, e.strides, s, names);
      FixAUnit(e.args, e.strides, s, s.source);
      SplitPoint(FixAAll(e.args, s), e.strides, s);
    }
  }

  lemma {:induction false} FixAAllTamePoint(args: seq<Expr>, strides: seq<int>, s: Split, names: set<nat>)
    requires AllWellFormed(args) && AllTame(args, s.source) && AllWithin(args, names) && s.point !in names && s.tile != s.point
    ensures AllTame(FixAAll(args, s), s.point) && Iv(s.point) !in FixAAll(args, s)
  {
    if args != [] {
      FixATamePoint(args[0], s, names);
      FixAAllTamePoint(args[1..], if strides == [] then [] else strides[1..], s, names);
      assert FixAAll(args, s)[1..] == FixAAll(args[1..], s);
      assert FixAAll(args, s) == [FixA(args[0], s)] + FixAAll(args[1..], s);
    }
  }

  /** Both fixes together. */
  lemma FixesTamePoint(e: Expr, s: Split, names: set<nat>)
    requires WellFormed(e) && Tame(e, s.source) && Within(e, names) && s.point !in names && s.tile != s.point
    requires s.point != s.source && s.point !in PartNames(s.ancestry)
    ensures Tame(FixB(FixA(e, s), s), s.point) && FixB(FixA(e, s), s) != Iv(s.point)
  {
    FixATamePoint(e, s, names);
    FixBTame(FixA(e, s), s, s.point);
  }

  lemma FixesTame(e: Expr, s: Split, iv: nat)
    requires WellFormed(e) && Tame(e, iv) && Foreign(s, iv)
    ensures Tame(FixB(FixA(e, s), s), iv)
    ensures FixB(FixA(e, s), s) == Iv(iv) ==> e == Iv(iv)
  {
    FixATame(e, s, iv);
    FixBTame(FixA(e, s), s, iv);
  }

  lemma FixesWithin(e: Expr, s: Split, names: set<nat>)
    requires WellFormed(e) && Within(e, names + {s.source})
    requires s.tile in names && s.point in names && PartNames(s.ancestry) <= names
    ensures Within(FixB(FixA(e, s), s), names)
  {
    FixAWithin(e, s, names + {s.source});
    FixBWithin(FixA(e, s), s, names);
  }
}
