/** The scope chain of scope.cpp: frames of bindings, each linked to the
    frame it was made in.  A frame is a `Frame` of the store in heap.dfy,
    named by its handle. */
module Scopes {
  import opened Base
  import opened Objects
  import opened Heaps

  /** `std::make_shared<Scope>(...)`: a new empty frame whose handle is
      `|h.frames|`, under `parent`. */
  function NewFrame(h: Heap, parent: Option<nat>): (r: Heap)
    requires Wf(h) && (parent.Some? ==> parent.value < |h.frames|)
    ensures Wf(r) && Grows(h, r) && |r.frames| == |h.frames| + 1
    ensures r.frames[|h.frames|] == Frame(map[], parent)
    ensures r.frames[..|h.frames|] == h.frames && r.cells == h.cells && r.closures == h.closures
  {
    h.(frames := h.frames + [Frame(map[], parent)])
  }

  /** `Scope::LookupInCurrentScope`: the binding of `name` in frame `f`, or
      the empty value when `f` has none.  It never fails. */
  function LookupHere(h: Heap, f: nat, name: string): (v: Value)
    requires Wf(h) && f < |h.frames|
    ensures ValueOk(v, h)
    ensures name !in h.frames[f].vars ==> v == Nil
    ensures name in h.frames[f].vars ==> v == h.frames[f].vars[name]
  {
    if name in h.frames[f].vars then h.frames[f].vars[name] else Nil
  }

  /** Does frame `f` hold a binding of `name` that `Lookup` and `Set` see?
      A binding to the empty value does not count (scope.cpp:25, 30, 42). */
  predicate Binds(h: Heap, f: nat, name: string)
    requires f < |h.frames|
  {
    name in h.frames[f].vars && h.frames[f].vars[name] != Nil
  }

  /** The frames `Lookup` visits from `f`: `f`, its parent, and so on up to
      the frame without a parent. */
  function Chain(h: Heap, f: nat): (fs: seq<nat>)
    requires Wf(h) && f < |h.frames|
    ensures |fs| > 0 && fs[0] == f
    ensures forall i :: 0 <= i < |fs| ==> fs[i] < |h.frames|
    ensures forall i :: 0 < i < |fs| ==> fs[i] < f
    decreases f
  {
    match h.frames[f].parent
    case None => [f]
    case Some(p) => [f] + Chain(h, p)
  }

  /** `Scope::Lookup`: the binding in the nearest frame of the chain that
      binds `name`, else NameError. */
  function Lookup(h: Heap, f: nat, name: string): (r: Result<Value>)
    requires Wf(h) && f < |h.frames|
    ensures r.Ok? ==> r.value != Nil && ValueOk(r.value, h)
    ensures r.Err? ==> r.error == NameError
    decreases f
  {
    var v := LookupHere(h, f, name);
    if v != Nil then Ok(v)
    else match h.frames[f].parent
      case None => Err(NameError)
      case Some(p) => Lookup(h, p, name)
  }

  /** `Scope::Insert`: binds or rebinds `name` in frame `f` only. */
  function Insert(h: Heap, f: nat, name: string, v: Value): (r: Heap)
    requires Wf(h) && f < |h.frames| && ValueOk(v, h)
    ensures Wf(r) && Grows(h, r) && Grows(r, h)
    ensures r.frames[f].vars == h.frames[f].vars[name := v] && r.frames[f].parent == h.frames[f].parent
    ensures forall g :: 0 <= g < |h.frames| && g != f ==> r.frames[g] == h.frames[g]
    ensures r.cells == h.cells && r.closures == h.closures
  {
    h.(frames := h.frames[f := h.frames[f].(vars := h.frames[f].vars[name := v])])
  }

  /** `Scope::Set`: rebinds `name` in the nearest frame that binds it; when no
      frame does, NameError and nothing changes. */
  function SetVar(h: Heap, f: nat, name: string, v: Value): (r: Result<Heap>)
    requires Wf(h) && f < |h.frames| && ValueOk(v, h)
    ensures r.Ok? ==> Wf(r.value) && Grows(h, r.value) && Grows(r.value, h)
    ensures r.Ok? ==> r.value.cells == h.cells && r.value.closures == h.closures
    ensures r.Err? ==> r.error == NameError
    decreases f
  {
    if LookupHere(h, f, name) != Nil then Ok(Insert(h, f, name, v))
    else match h.frames[f].parent
      case None => Err(NameError)
      case Some(p) => SetVar(h, p, name, v)
  }

  /** `Scope::Clear`: forgets every binding of frame `f`. */
  function Clear(h: Heap, f: nat): (r: Heap)
    requires Wf(h) && f < |h.frames|
    ensures Wf(r) && Grows(h, r) && Grows(r, h)
    ensures r.frames[f] == Frame(map[], h.frames[f].parent)
    ensures forall g :: 0 <= g < |h.frames| && g != f ==> r.frames[g] == h.frames[g]
    ensures r.cells == h.cells && r.closures == h.closures
  {
    h.(frames := h.frames[f := Frame(map[], h.frames[f].parent)])
  }

  // ---------------------------------------------------------------------
  // Properties of the scope chain

  /** `Lookup` answers with the binding of the nearest frame of the chain
      that binds the name (scope.cpp:21-35). */
  lemma {:induction false} LookupFindsNearest(h: Heap, f: nat, name: string, i: nat)
    requires Wf(h) && f < |h.frames|
    requires i < |Chain(h, f)| && Binds(h, Chain(h, f)[i], name)
    requires forall j :: 0 <= j < i ==> !Binds(h, Chain(h, f)[j], name)
    ensures Lookup(h, f, name) == Ok(h.frames[Chain(h, f)[i]].vars[name])
    decreases f
  {
    if i > 0 {
      assert !Binds(h, Chain(h, f)[0], name);
      var p := h.frames[f].parent.value;
      forall j | 0 <= j < i - 1 ensures !Binds(h, Chain(h, p)[j], name) {
        assert Chain(h, p)[j] == Chain(h, f)[j + 1];
      }
      assert Chain(h, p)[i - 1] == Chain(h, f)[i];
      LookupFindsNearest(h, p, name, i - 1);
    }
  }

  /** Some frame of `fs` binds `name`. */
  predicate SomeBinds(h: Heap, fs: seq<nat>, name: string)
    requires forall i :: 0 <= i < |fs| ==> fs[i] < |h.frames|
  {
    exists i :: 0 <= i < |fs| && Binds(h, fs[i], name)
  }

  lemma SomeBindsCons(h: Heap, f: nat, ps: seq<nat>, name: string)
    requires f < |h.frames| && forall i :: 0 <= i < |ps| ==> ps[i] < |h.frames|
    ensures SomeBinds(h, [f] + ps, name) <==> Binds(h, f, name) || SomeBinds(h, ps, name)
  {
    var fs := [f] + ps;
    if SomeBinds(h, fs, name) && !Binds(h, f, name) {
      var i :| 0 <= i < |fs| && Binds(h, fs[i], name);
      assert fs[i] == ps[i - 1];
    }
    if SomeBinds(h, ps, name) {
      var i :| 0 <= i < |ps| && Binds(h, ps[i], name);
      assert fs[i + 1] == ps[i];
    }
    if Binds(h, f, name) {
      assert fs[0] == f;
    }
  }

  lemma {:induction false} LookupFailsIffUnboundHelper(h: Heap, f: nat, name: string)
    requires Wf(h) && f < |h.frames|
    ensures Lookup(h, f, name).Err? <==> !SomeBinds(h, Chain(h, f), name)
    decreases f
  {
    match h.frames[f].parent
    case None =>
      SomeBindsCons(h, f, [], name);
      assert [f] + [] == Chain(h, f);
    case Some(p) =>
      LookupFailsIffUnboundHelper(h, p, name);
      SomeBindsCons(h, f, Chain(h, p), name);
  }

  /** `Lookup` raises NameError exactly when no frame of the chain binds the
      name (scope.cpp:30-31). */
  lemma LookupFailsIffUnbound(h: Heap, f: nat, name: string)
    requires Wf(h) && f < |h.frames|
    ensures Lookup(h, f, name).Err? <==> forall i :: 0 <= i < |Chain(h, f)| ==> !Binds(h, Chain(h, f)[i], name)
  {
    LookupFailsIffUnboundHelper(h, f, name);
  }

  /** The chain from a frame depends only on the parent links. */
  lemma {:induction false} ChainSameParents(h: Heap, h2: Heap, f: nat)
    requires Wf(h) && Wf(h2) && f < |h.frames| && |h.frames| == |h2.frames|
    requires forall g :: 0 <= g < |h.frames| ==> h2.frames[g].parent == h.frames[g].parent
    ensures Chain(h2, f) == Chain(h, f)
    decreases f
  {
    if h.frames[f].parent.Some? {
      ChainSameParents(h, h2, h.frames[f].parent.value);
    }
  }

  /** `Lookup` of a name other than the one inserted, or from a frame whose
      chain does not pass the frame inserted into, is unaffected by `Insert`. */
  lemma {:induction false} InsertLeavesOthers(h: Heap, f: nat, name: string, v: Value, g: nat, other: string)
    requires Wf(h) && f < |h.frames| && ValueOk(v, h) && g < |h.frames|
    requires other != name || f !in Chain(h, g)
    ensures Lookup(Insert(h, f, name, v), g, other) == Lookup(h, g, other)
    decreases g
  {
    var h2 := Insert(h, f, name, v);
    if h.frames[g].parent.Some? {
      var p := h.frames[g].parent.value;
      assert Chain(h, g) == [g] + Chain(h, p);
      InsertLeavesOthers(h, f, name, v, p, other);
    }
  }

  /** `Insert` binds in the current frame, where `Lookup` finds it first; a
      binding of the same name in a parent is shadowed, not altered
      (scope.cpp:37-39). */
  lemma InsertShadows(h: Heap, f: nat, name: string, v: Value)
    requires Wf(h) && f < |h.frames| && ValueOk(v, h) && v != Nil
    ensures Lookup(Insert(h, f, name, v), f, name) == Ok(v)
    ensures forall g :: 0 <= g < |h.frames| && g != f ==> Insert(h, f, name, v).frames[g] == h.frames[g]
  {
  }

  /** A binding to the empty value looks unbound: `Lookup` passes over it to
      the parents (scope.cpp:10-14, 25, 30). */
  lemma InsertEmptyLooksUnbound(h: Heap, f: nat, name: string)
    requires Wf(h) && f < |h.frames|
    ensures Lookup(Insert(h, f, name, Nil), f, name) ==
      match h.frames[f].parent
      case None => Err(NameError)
      case Some(p) => Lookup(h, p, name)
  {
    var h2 := Insert(h, f, name, Nil);
    if h.frames[f].parent.Some? {
      var p := h.frames[f].parent.value;
      assert f !in Chain(h, p);
      InsertLeavesOthers(h, f, name, Nil, p, name);
    }
  }

  /** `Set` rebinds the name in the nearest frame that binds it, and in no
      other frame (scope.cpp:41-56). */
  lemma {:induction false} SetChangesNearest(h: Heap, f: nat, name: string, v: Value, i: nat)
    requires Wf(h) && f < |h.frames| && ValueOk(v, h)
    requires i < |Chain(h, f)| && Binds(h, Chain(h, f)[i], name)
    requires forall j :: 0 <= j < i ==> !Binds(h, Chain(h, f)[j], name)
    ensures SetVar(h, f, name, v) == Ok(Insert(h, Chain(h, f)[i], name, v))
    decreases f
  {
    if i > 0 {
      assert !Binds(h, Chain(h, f)[0], name);
      var p := h.frames[f].parent.value;
      forall j | 0 <= j < i - 1 ensures !Binds(h, Chain(h, p)[j], name) {
        assert Chain(h, p)[j] == Chain(h, f)[j + 1];
      }
      assert Chain(h, p)[i - 1] == Chain(h, f)[i];
      SetChangesNearest(h, p, name, v, i - 1);
    }
  }

  /** `Set` never creates a binding: it fails, with NameError, exactly when
      `Lookup` of the name fails (scope.cpp:48-58). */
  lemma {:induction false} SetFailsIffUnbound(h: Heap, f: nat, name: string, v: Value)
    requires Wf(h) && f < |h.frames| && ValueOk(v, h)
    ensures SetVar(h, f, name, v).Err? <==> Lookup(h, f, name).Err?
    decreases f
  {
    if LookupHere(h, f, name) == Nil && h.frames[f].parent.Some? {
      SetFailsIffUnbound(h, h.frames[f].parent.value, name, v);
    }
  }

  /** After a successful `Set` to a non-empty value, `Lookup` from the same
      frame sees the new value. */
  lemma {:induction false} LookupAfterSet(h: Heap, f: nat, name: string, v: Value)
    requires Wf(h) && f < |h.frames| && ValueOk(v, h) && v != Nil
    requires SetVar(h, f, name, v).Ok?
    ensures Lookup(SetVar(h, f, name, v).value, f, name) == Ok(v)
    decreases f
  {
    if LookupHere(h, f, name) == Nil {
      var p := h.frames[f].parent.value;
      LookupAfterSet(h, p, name, v);
      var h2 := SetVar(h, p, name, v).value;
      assert SetVar(h, f, name, v).value == h2;
      assert h2.frames[f] == h.frames[f] by { SetKeepsOutside(h, p, name, v, f); }
    }
  }

  /** `Set` from frame `f` changes no frame outside the chain of `f`;
      in particular no frame made after `f`. */
  lemma {:induction false} SetKeepsOutside(h: Heap, f: nat, name: string, v: Value, g: nat)
    requires Wf(h) && f < |h.frames| && ValueOk(v, h) && g < |h.frames|
    requires SetVar(h, f, name, v).Ok? && f < g
    ensures SetVar(h, f, name, v).value.frames[g] == h.frames[g]
    decreases f
  {
    if LookupHere(h, f, name) == Nil {
      SetKeepsOutside(h, h.frames[f].parent.value, name, v, g);
    }
  }

  /** `Clear` forgets the bindings of the current frame only: `Lookup` from it
      then sees the parents' bindings (scope.cpp:61-63). */
  lemma ClearForgetsCurrent(h: Heap, f: nat, name: string)
    requires Wf(h) && f < |h.frames|
    ensures LookupHere(Clear(h, f), f, name) == Nil
    ensures h.frames[f].parent.Some? ==>
      Lookup(Clear(h, f), f, name) == Lookup(Clear(h, f), h.frames[f].parent.value, name)
    ensures h.frames[f].parent.None? ==> Lookup(Clear(h, f), f, name) == Err(NameError)
  {
  }
}
