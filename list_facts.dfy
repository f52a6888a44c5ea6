/** What the pair and list builtins do to chains of cells
    (scheme/functions.cpp:70-92, 396-545), stated against the chain
    definitions of lists.dfy: `Drop`, `ProperList` and `Elements`. */
module ListFacts {
  import opened Base
  import opened Objects
  import opened Heaps
  import opened Lists
  import opened Builtins

  /** `h2` holds the cells of `h` unchanged, and maybe more. */
  predicate Extends(h: Heap, h2: Heap) {
    Wf(h) && Wf(h2) && Grows(h, h2) && h2.cells[..|h.cells|] == h.cells
  }

  lemma CellKept(h: Heap, h2: Heap, c: nat)
    requires Extends(h, h2) && c < |h.cells|
    ensures h2.cells[c] == h.cells[c]
  {
    assert h2.cells[..|h.cells|][c] == h2.cells[c];
  }

  /** A walk over old cells is the same in a larger store. */
  lemma {:induction false} DropExtends(h: Heap, h2: Heap, v: Value, k: nat)
    requires Extends(h, h2) && ValueOk(v, h)
    ensures Drop(h2, v, k) == Drop(h, v, k)
    decreases k
  {
    if k > 0 && v.Pair? {
      CellKept(h, h2, v.cell);
      DropExtends(h, h2, h.cells[v.cell].second, k - 1);
    }
  }

  lemma {:induction false} ElementsExtend(h: Heap, h2: Heap, v: Value, n: nat)
    requires Extends(h, h2) && ValueOk(v, h) && Drop(h, v, n).Some?
    ensures Drop(h2, v, n).Some? && Elements(h2, v, n) == Elements(h, v, n)
    decreases n
  {
    DropExtends(h, h2, v, n);
    if n > 0 {
      CellKept(h, h2, v.cell);
      ElementsExtend(h, h2, h.cells[v.cell].second, n - 1);
    }
  }

  // ---------------------------------------------------------------------
  // cons, car, cdr, set-car!, set-cdr!

  /** `car` and `cdr` of a fresh `cons` give back its two arguments
      (scheme/functions.cpp:396-434). */
  lemma CarCdrOfCons(h: Heap, a: Value, b: Value)
    requires Wf(h) && ValueOk(a, h) && ValueOk(b, h)
    ensures var o := ListOp(h, Cons, [a, b]);
      && o.r == Ok(Pair(|h.cells|))
      && ListOp(o.h, Car, [o.r.value]) == Outcome(o.h, Ok(a))
      && ListOp(o.h, Cdr, [o.r.value]) == Outcome(o.h, Ok(b))
  {
  }

  /** `set-car!` and `set-cdr!` change the one cell in place: every value
      that is that cell sees the new field, its other field and every other
      cell are as before, and the new field is the answer
      (scheme/functions.cpp:436-466). */
  lemma SetCarCdrInPlace(h: Heap, c: nat, v: Value)
    requires Wf(h) && c < |h.cells| && ValueOk(v, h)
    ensures var o := ListOp(h, SetCar, [Pair(c), v]);
      && o.r == Ok(v)
      && ListOp(o.h, Car, [Pair(c)]).r == Ok(v)
      && ListOp(o.h, Cdr, [Pair(c)]).r == ListOp(h, Cdr, [Pair(c)]).r
      && forall d :: 0 <= d < |h.cells| && d != c ==> o.h.cells[d] == h.cells[d]
    ensures var o := ListOp(h, SetCdr, [Pair(c), v]);
      && o.r == Ok(v)
      && ListOp(o.h, Cdr, [Pair(c)]).r == Ok(v)
      && ListOp(o.h, Car, [Pair(c)]).r == ListOp(h, Car, [Pair(c)]).r
      && forall d :: 0 <= d < |h.cells| && d != c ==> o.h.cells[d] == h.cells[d]
  {
  }

  /** `cons`, `set-car!` and `set-cdr!` take two arguments and `car` and
      `cdr` one, else RuntimeError; `car`, `cdr`, `set-car!` and `set-cdr!`
      on a first argument that is not a cell are a RuntimeError too, and
      none of these errors changes the store (scheme/functions.cpp:399-401,
      409-416, 424-431, 439-446, 455-462). */
  lemma PairOpsNeedPair(h: Heap, args: seq<Value>)
    requires Wf(h) && AllOk(args, h)
    ensures |args| != 2 ==> ListOp(h, Cons, args) == Outcome(h, Err(RuntimeError))
    ensures |args| != 1 || !args[0].Pair? ==>
      ListOp(h, Car, args) == Outcome(h, Err(RuntimeError)) && ListOp(h, Cdr, args) == Outcome(h, Err(RuntimeError))
    ensures |args| != 2 || !args[0].Pair? ==>
      ListOp(h, SetCar, args) == Outcome(h, Err(RuntimeError)) && ListOp(h, SetCdr, args) == Outcome(h, Err(RuntimeError))
  {
  }

  // ---------------------------------------------------------------------
  // list

  /** `list` builds a proper list of fresh cells whose elements are its
      arguments in order, which `ToVector` gives back
      (scheme/functions.cpp:468-478). */
  lemma {:induction false} ListBuildsProperList(h: Heap, args: seq<Value>)
    requires Wf(h) && AllOk(args, h)
    ensures var o := BuildList(h, args);
      && ProperList(o.h, o.r.value, |args|)
      && Elements(o.h, o.r.value, |args|) == args
      && ToVector(o.h, o.r.value) == Ok(args)
    decreases |args|
  {
    var o := BuildList(h, args);
    if args != [] {
      var rest := BuildList(h, args[1..]);
      ListBuildsProperList(h, args[1..]);
      ConsOntoList(rest.h, rest.r.value, |args| - 1, args[0]);
      assert [args[0]] + args[1..] == args;
    }
    ToVectorOfChain(o.h, o.r.value, |args|, Nil);
  }

  /** A fresh cell in front of a proper list of `n` elements is a proper
      list of `n + 1` elements, the new one first. */
  lemma ConsOntoList(h: Heap, v: Value, n: nat, a: Value)
    requires Wf(h) && ValueOk(v, h) && ValueOk(a, h) && ProperList(h, v, n)
    ensures var h2 := NewCell(h, a, v);
      ProperList(h2, Pair(|h.cells|), n + 1) && Elements(h2, Pair(|h.cells|), n + 1) == [a] + Elements(h, v, n)
  {
    var h2 := NewCell(h, a, v);
    DropExtends(h, h2, v, n);
    ElementsExtend(h, h2, v, n);
    assert Drop(h2, Pair(|h.cells|), n + 1) == Drop(h2, v, n);
  }

  // ---------------------------------------------------------------------
  // list-ref

  /** The walk of `list-ref` along a proper list. */
  lemma {:induction false} RefWalkOnList(h: Heap, v: Value, n: nat, k: int)
    requires Wf(h) && ValueOk(v, h) && ProperList(h, v, n)
    ensures RefWalk(h, v, k) ==
      if n == 0 then Err(RuntimeError)
      else if k < 0 then Ok(Elements(h, v, n)[0])
      else if k < n then Ok(Elements(h, v, n)[k])
      else Err(RuntimeError)
    decreases n
  {
    if n > 0 {
      var c := v.cell;
      if k > 0 {
        RefWalkOnList(h, h.cells[c].second, n - 1, k - 1);
      }
    }
  }

  /** `list-ref` of a proper list and an index below its length is the
      element at that index; an index at or past the end is a RuntimeError,
      and a negative one gives the first element, as the loop never starts
      (scheme/functions.cpp:480-510). */
  lemma ListRefOfList(h: Heap, v: Value, n: nat, k: int)
    requires Wf(h) && ValueOk(v, h) && ProperList(h, v, n) && n > 0
    ensures ListOp(h, ListRef, [v, Number(k)]) ==
      Outcome(h, if k < 0 then Ok(Elements(h, v, n)[0])
                 else if k < n then Ok(Elements(h, v, n)[k])
                 else Err(RuntimeError))
  {
    RefWalkOnList(h, v, n, k);
  }

  // ---------------------------------------------------------------------
  // list-tail

  /** The `second` fields `TailsFrom` collects along a proper list are the
      values one, two, ... steps on. */
  lemma {:induction false} TailsOnList(h: Heap, w: Value, m: nat, bound: nat)
    requires Wf(h) && ValueOk(w, h) && ProperList(h, w, m) && m <= bound
    ensures var r := TailsFrom(h, w, bound);
      r.Ok? && |r.value| == m && forall i :: 0 <= i < m ==> Drop(h, w, i + 1) == Some(r.value[i])
    decreases m
  {
    if m > 0 {
      var n2 := h.cells[w.cell].second;
      TailsOnList(h, n2, m - 1, bound - 1);
      var rest := TailsFrom(h, n2, bound - 1).value;
      var r := TailsFrom(h, w, bound);
      assert r == Ok([n2] + rest);
      forall i | 0 <= i < m
        ensures Drop(h, w, i + 1) == Some(r.value[i])
      {
        if i > 0 {
          assert Drop(h, w, i + 1) == Drop(h, n2, i);
        }
      }
    }
  }

  /** `list-tail` of a proper list of `n` elements and `k` with
      `0 <= k <= n` is the list past its first `k` cells; any other `k` is a
      RuntimeError (scheme/functions.cpp:512-545). */
  lemma ListTailOfList(h: Heap, v: Value, n: nat, k: int)
    requires Wf(h) && ValueOk(v, h) && ProperList(h, v, n) && n > 0
    ensures 0 <= k <= n ==> Drop(h, v, k).Some?
    ensures ListOp(h, ListTail, [v, Number(k)]) ==
      Outcome(h, if 0 <= k <= n then Ok(Drop(h, v, k).value) else Err(RuntimeError))
  {
    var next := h.cells[v.cell].second;
    ChainFitsStore(h, v, n, Nil);
    TailsOnList(h, next, n - 1, |h.cells|);
    var tails := TailsFrom(h, next, |h.cells|).value;
    var results := [v, next] + tails;
    assert |results| == n + 1;
    if 0 <= k <= n {
      if k >= 2 {
        assert results[k] == tails[k - 2];
        assert Drop(h, v, k) == Drop(h, next, k - 1);
      }
    }
  }

  // ---------------------------------------------------------------------
  // list?

  /** Every element of the proper list is a number. */
  predicate NumericList(h: Heap, v: Value, n: nat)
    requires Wf(h) && ValueOk(v, h) && ProperList(h, v, n)
  {
    forall i :: 0 <= i < n ==> Elements(h, v, n)[i].Number?
  }

  lemma {:induction false} IsListWithinOnList(h: Heap, v: Value, n: nat, bound: nat)
    requires Wf(h) && ValueOk(v, h) && ProperList(h, v, n) && n <= bound
    ensures IsListWithin(h, v, bound) == Ok(NumericList(h, v, n))
    decreases n
  {
    if n > 0 {
      var c := v.cell;
      var rest := h.cells[c].second;
      var xs := Elements(h, v, n);
      assert xs == [h.cells[c].first] + Elements(h, rest, n - 1);
      if h.cells[c].first.Number? {
        IsListWithinOnList(h, rest, n - 1, bound - 1);
        var ys := Elements(h, rest, n - 1);
        assert forall i :: 0 < i < n ==> xs[i] == ys[i - 1];
        if NumericList(h, rest, n - 1) {
          forall i | 0 <= i < n
            ensures xs[i].Number?
          {
            if i > 0 {
              assert ys[i - 1].Number?;
            }
          }
        } else {
          var j :| 0 <= j < n - 1 && !ys[j].Number?;
          assert !xs[j + 1].Number?;
        }
      } else {
        assert !xs[0].Number?;
      }
    }
  }

  /** `list?` of a proper list answers whether all its elements are numbers
      (scheme/functions.cpp:70-92): the empty list is one, `(1 2)` is one and
      `(1 a)` is not. */
  lemma ListPOfList(h: Heap, v: Value, n: nat)
    requires Wf(h) && ValueOk(v, h) && ProperList(h, v, n)
    ensures IsList(h, v) == Ok(NumericList(h, v, n))
  {
    ChainFitsStore(h, v, n, Nil);
    IsListWithinOnList(h, v, n, |h.cells|);
  }

  lemma {:induction false} IsListWithinTrue(h: Heap, v: Value, bound: nat)
    requires Wf(h) && ValueOk(v, h) && IsListWithin(h, v, bound) == Ok(true)
    ensures exists n :: ProperList(h, v, n) && NumericList(h, v, n)
    decreases bound
  {
    if v == Nil {
      assert ProperList(h, v, 0) && NumericList(h, v, 0);
    } else {
      var c := v.cell;
      var rest := h.cells[c].second;
      IsListWithinTrue(h, rest, bound - 1);
      var m: nat :| ProperList(h, rest, m) && NumericList(h, rest, m);
      assert Drop(h, v, m + 1) == Drop(h, rest, m);
      var xs := Elements(h, v, m + 1);
      assert xs == [h.cells[c].first] + Elements(h, rest, m);
      assert forall i :: 0 < i < m + 1 ==> xs[i] == Elements(h, rest, m)[i - 1];
      assert NumericList(h, v, m + 1);
    }
  }

  /** Conversely, `list?` answers `#t` only for a proper list of numbers. */
  lemma ListPTrueOnlyForNumericLists(h: Heap, v: Value)
    requires Wf(h) && ValueOk(v, h) && IsList(h, v) == Ok(true)
    ensures exists n :: ProperList(h, v, n) && NumericList(h, v, n)
  {
    IsListWithinTrue(h, v, |h.cells|);
  }
}
