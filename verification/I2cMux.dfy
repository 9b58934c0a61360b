/** Nested i2c muxes: mux_master_xfer of linuxdvbkpi/src/i2c_mux.c over a chain of
    adapters, each with optional select and deselect callbacks. */
module I2cMux {
  import opened Bytes

  /** A mux channel knows its parent adapter and which callbacks it was given. */
  datatype Adapter = Root | Mux(parent: Adapter, hasSelect: bool, hasDeselect: bool)

  /** Its depth identifies a mux among those one transfer passes through. */
  function Depth(a: Adapter): nat {
    match a
    case Root => 0
    case Mux(p, _, _) => 1 + Depth(p)
  }

  datatype Event = Select(depth: nat, rc: int) | Transfer(rc: int) | Deselect(depth: nat, rc: int)

  /** The answers of the callbacks, by depth, and of the real bus. */
  datatype Answers = Answers(select: nat -> int, transfer: int, deselect: nat -> int)

  function Xfer(a: Adapter, ans: Answers): (int, seq<Event>)
    decreases a, 1
  {
    match a
    case Root => (ans.transfer, [Transfer(ans.transfer)])
    case Mux(_, hasSelect, _) =>
      var (d, sel) := (Depth(a), ans.select(Depth(a)));
      if hasSelect && sel < 0 then (sel, [Select(d, sel)])
      else
        var (rc, rest) := Forwarded(a, ans);
        (rc, (if hasSelect then [Select(d, sel)] else []) + rest)
  }

  /** What follows a select that did not fail. */
  function Forwarded(a: Adapter, ans: Answers): (int, seq<Event>)
    requires a.Mux?
    decreases a, 0
  {
    var (d, des) := (Depth(a), ans.deselect(Depth(a)));
    var (rc, inner) := Xfer(a.parent, ans);
    (if rc < 0 then rc else if a.hasDeselect && des < 0 then des else rc,
     inner + if a.hasDeselect then [Deselect(d, des)] else [])
  }

  // ---- bracketing ------------------------------------------------------------------

  /** Reads a trace against the stack of muxes currently selected, outermost last: a
      successful select pushes, a deselect must match the top. None: it did not. */
  function Check(trace: seq<Event>, stack: seq<nat>): Option<seq<nat>>
    decreases |trace|
  {
    if trace == [] then Some(stack)
    else
      match trace[0]
      case Transfer(_) => Check(trace[1..], stack)
      case Select(d, rc) => Check(trace[1..], if rc < 0 then stack else [d] + stack)
      case Deselect(d, _) => if stack != [] && stack[0] == d then Check(trace[1..], stack[1..]) else None
  }

  /** Every selected mux is deselected again, innermost first, and nothing else is. */
  predicate WellBracketed(trace: seq<Event>) {
    Check(trace, []) == Some([])
  }

  /** Each mux on the way has both callbacks or neither. */
  predicate Paired(a: Adapter) {
    a.Root? || (a.hasSelect == a.hasDeselect && Paired(a.parent))
  }

  lemma {:induction false} CheckAppend(t: seq<Event>, u: seq<Event>, stack: seq<nat>)
    ensures Check(t + u, stack) == match Check(t, stack) { case None => None case Some(s) => Check(u, s) }
    decreases |t|
  {
    if t == [] {
      assert t + u == u;
    } else {
      assert (t + u)[1..] == t[1..] + u;
      match t[0]
      case Transfer(_) => CheckAppend(t[1..], u, stack);
      case Select(d, rc) => CheckAppend(t[1..], u, if rc < 0 then stack else [d] + stack);
      case Deselect(d, _) =>
        if stack != [] && stack[0] == d {
          CheckAppend(t[1..], u, stack[1..]);
        }
    }
  }

  /** The stack after the deselect, if there is one. */
  function Deselected(r: Option<seq<nat>>, hasDeselect: bool, d: nat): Option<seq<nat>> {
    if r.None? || !hasDeselect then r
    else if r.value != [] && r.value[0] == d then Some(r.value[1..])
    else None
  }

  /** The trace of a mux whose select did not fail, read in three parts. */
  lemma CheckMux(a: Adapter, ans: Answers, stack: seq<nat>)
    requires a.Mux? && !(a.hasSelect && ans.select(Depth(a)) < 0)
    ensures var d := Depth(a);
            Check(Xfer(a, ans).1, stack) ==
            Deselected(Check(Xfer(a.parent, ans).1, if a.hasSelect then [d] + stack else stack), a.hasDeselect, d)
  {
    var d := Depth(a);
    var inner := Xfer(a.parent, ans).1;
    var pre := if a.hasSelect then [Select(d, ans.select(d))] else [];
    var post := if a.hasDeselect then [Deselect(d, ans.deselect(d))] else [];
    CheckAppend(pre, inner + post, stack);
    CheckAppend(inner, post, if a.hasSelect then [d] + stack else stack);
    assert Xfer(a, ans).1 == pre + (inner + post);
    if a.hasSelect {
      assert pre[1..] == [];
    }
    if a.hasDeselect {
      assert post[1..] == [];
    }
  }

  lemma {:induction false} PairedBrackets(a: Adapter, ans: Answers, stack: seq<nat>)
    requires Paired(a)
    ensures Check(Xfer(a, ans).1, stack) == Some(stack)
    decreases a
  {
    if a.Mux? {
      var d := Depth(a);
      if a.hasSelect && ans.select(d) < 0 {
        assert [Select(d, ans.select(d))][1..] == [];
      } else {
        PairedBrackets(a.parent, ans, if a.hasSelect then [d] + stack else stack);
        CheckMux(a, ans, stack);
      }
    } else {
      assert [Transfer(ans.transfer)][1..] == [];
    }
  }

  const ALL_SUCCEED := Answers(_ => 0, 0, _ => 0)

  /** r is the stack `stack` with muxes of depth at most d added on top, if it is one. */
  predicate Grown(r: Option<seq<nat>>, stack: seq<nat>, d: nat) {
    r.Some? ==>
      && |stack| <= |r.value| && r.value[|r.value| - |stack|..] == stack
      && forall k :: 0 <= k < |r.value| - |stack| ==> r.value[k] <= d
  }

  /** With both callbacks, the stack is back where it was exactly if the inner chain is. */
  lemma BothGrow(r: Option<seq<nat>>, stack: seq<nat>, d: nat)
    requires 0 < d && Grown(r, [d] + stack, d - 1)
    ensures var t := Deselected(r, true, d);
            Grown(t, stack, d) && (t == Some(stack) <==> r == Some([d] + stack))
  {
    if r.Some? {
      var n := |r.value| - |stack| - 1;
      assert r.value[n..] == [d] + stack;
      if 0 < n {
        assert r.value[0] != d;
      } else {
        assert r.value == [d] + stack && r.value[1..] == stack;
      }
    }
  }

  /** A select without a deselect leaves something behind. */
  lemma SelectOnly(r: Option<seq<nat>>, stack: seq<nat>, d: nat)
    requires 0 < d && Grown(r, [d] + stack, d - 1)
    ensures Grown(r, stack, d) && r != Some(stack)
  {
    if r.Some? {
      var n := |r.value| - |stack| - 1;
      assert r.value[n..] == [d] + stack;
      assert r.value[n] == d && r.value[n + 1..] == stack;
    }
  }

  /** A deselect without a select finds nothing of its own. */
  lemma DeselectOnly(r: Option<seq<nat>>, stack: seq<nat>, d: nat)
    requires 0 < d && Grown(r, stack, d - 1) && forall k :: 0 <= k < |stack| ==> d < stack[k]
    ensures Deselected(r, true, d) == None
  {
    if r.Some? && r.value != [] {
      var n := |r.value| - |stack|;
      if 0 < n {
        assert r.value[0] <= d - 1;
      } else {
        assert r.value[0] == r.value[n..][0] == stack[0];
      }
    }
  }

  lemma NeitherGrows(r: Option<seq<nat>>, stack: seq<nat>, d: nat)
    requires 0 < d && Grown(r, stack, d - 1)
    ensures Deselected(r, false, d) == r && Grown(r, stack, d)
  {
  }

  /** One mux more on the way. */
  lemma MuxShows(r: Option<seq<nat>>, stack: seq<nat>, d: nat, hasSelect: bool, hasDeselect: bool)
    requires 0 < d && Grown(r, if hasSelect then [d] + stack else stack, d - 1)
    requires forall k :: 0 <= k < |stack| ==> d < stack[k]
    ensures var t := Deselected(r, hasDeselect, d);
            && Grown(t, stack, d)
            && (t == Some(stack) <==>
                  hasSelect == hasDeselect && r == Some(if hasSelect then [d] + stack else stack))
  {
    if hasSelect && hasDeselect {
      BothGrow(r, stack, d);
    } else if hasSelect {
      SelectOnly(r, stack, d);
    } else if hasDeselect {
      DeselectOnly(r, stack, d);
    } else {
      NeitherGrows(r, stack, d);
    }
  }

  /** When nothing fails, the muxes of the chain can only add to the stack they are given,
      and leave it as it was exactly when they are paired. */
  lemma {:induction false} UnpairedShows(a: Adapter, stack: seq<nat>)
    requires forall k :: 0 <= k < |stack| ==> Depth(a) < stack[k]
    ensures var r := Check(Xfer(a, ALL_SUCCEED).1, stack);
            Grown(r, stack, Depth(a)) && (r == Some(stack) <==> Paired(a))
    decreases a
  {
    if a.Root? {
      assert [Transfer(0)][1..] == [];
    } else {
      var inner := if a.hasSelect then [Depth(a)] + stack else stack;
      UnpairedShows(a.parent, inner);
      CheckMux(a, ALL_SUCCEED, stack);
      MuxShows(Check(Xfer(a.parent, ALL_SUCCEED).1, inner), stack, Depth(a), a.hasSelect, a.hasDeselect);
    }
  }

  /** Well-bracketed under every pattern of failures, at any nesting depth: this is so
      exactly when every mux of the chain was given both callbacks or neither. */
  lemma BracketedIffPaired(a: Adapter)
    ensures (forall ans :: WellBracketed(Xfer(a, ans).1)) <==> Paired(a)
  {
    if Paired(a) {
      forall ans ensures WellBracketed(Xfer(a, ans).1) {
        PairedBrackets(a, ans, []);
      }
    } else {
      UnpairedShows(a, []);
      assert !WellBracketed(Xfer(a, ALL_SUCCEED).1);
    }
  }

  // ---- errors -----------------------------------------------------------------------

  /** The first negative answer of a trace, in order of time. */
  function FirstFailure(trace: seq<Event>): (r: Option<int>)
    ensures r.Some? ==> r.value < 0
  {
    if trace == [] then None else if trace[0].rc < 0 then Some(trace[0].rc) else FirstFailure(trace[1..])
  }

  lemma {:induction false} FirstFailureAppend(t: seq<Event>, u: seq<Event>)
    ensures FirstFailure(t + u) == if FirstFailure(t).Some? then FirstFailure(t) else FirstFailure(u)
    decreases |t|
  {
    if t == [] {
      assert t + u == u;
    } else {
      assert (t + u)[1..] == t[1..] + u;
      FirstFailureAppend(t[1..], u);
    }
  }

  /** A transfer reports the failure that happened first, so an error of the inner transfer
      hides one of a later deselect; without failures it reports the real bus's answer. */
  lemma {:induction false} FirstFailureWins(a: Adapter, ans: Answers)
    ensures var (rc, trace) := Xfer(a, ans);
            && rc == match FirstFailure(trace) { case Some(e) => e case None => ans.transfer }
            && (rc < 0 <==> FirstFailure(trace).Some?)
    decreases a
  {
    if a.Root? {
      assert [Transfer(ans.transfer)][1..] == [];
      return;
    }
    var d := Depth(a);
    var pre := if a.hasSelect then [Select(d, ans.select(d))] else [];
    var post := if a.hasDeselect then [Deselect(d, ans.deselect(d))] else [];
    assert pre != [] ==> pre[1..] == [];
    assert post != [] ==> post[1..] == [];
    if !(a.hasSelect && ans.select(d) < 0) {
      FirstFailureWins(a.parent, ans);
      var inner := Xfer(a.parent, ans).1;
      FirstFailureAppend(pre + inner, post);
      FirstFailureAppend(pre, inner);
      assert Xfer(a, ans).1 == pre + inner + post;
    }
  }

  // ---- what is selected when -----------------------------------------------------------

  /** Every select on the way succeeds. */
  predicate AllSelect(a: Adapter, ans: Answers) {
    a.Root? || ((a.hasSelect ==> 0 <= ans.select(Depth(a))) && AllSelect(a.parent, ans))
  }

  /** The selects of a transfer, from the outside in, as far as the first that fails. */
  function Selects(a: Adapter, ans: Answers): seq<Event> {
    if a.Root? then []
    else
      var sel := ans.select(Depth(a));
      if a.hasSelect && sel < 0 then [Select(Depth(a), sel)]
      else (if a.hasSelect then [Select(Depth(a), sel)] else []) + Selects(a.parent, ans)
  }

  /** The deselects that belong to it, from the inside out. */
  function Deselects(a: Adapter, ans: Answers): seq<Event> {
    if a.Root? || (a.hasSelect && ans.select(Depth(a)) < 0) then []
    else
      Deselects(a.parent, ans) + if a.hasDeselect then [Deselect(Depth(a), ans.deselect(Depth(a)))] else []
  }

  /** The muxes of the chain that have a select, innermost first. */
  function Selectable(a: Adapter): seq<nat> {
    if a.Root? then [] else Selectable(a.parent) + if a.hasSelect then [Depth(a)] else []
  }

  /** What the real bus sees of it. */
  function OnBus(a: Adapter, ans: Answers): seq<Event> {
    if AllSelect(a, ans) then [Transfer(ans.transfer)] else []
  }

  /** First all selects, then the one transfer, unless a select has failed, then all deselects. */
  lemma {:induction false} InThisOrder(a: Adapter, ans: Answers)
    ensures Xfer(a, ans).1 == Selects(a, ans) + OnBus(a, ans) + Deselects(a, ans)
    decreases a
  {
    if a.Mux? && !(a.hasSelect && ans.select(Depth(a)) < 0) {
      InThisOrder(a.parent, ans);
      var pre := if a.hasSelect then [Select(Depth(a), ans.select(Depth(a)))] else [];
      var post := if a.hasDeselect then [Deselect(Depth(a), ans.deselect(Depth(a)))] else [];
      Regroup(pre, Selects(a.parent, ans), OnBus(a.parent, ans), Deselects(a.parent, ans), post);
    }
  }

  lemma Regroup(a: seq<Event>, b: seq<Event>, c: seq<Event>, d: seq<Event>, e: seq<Event>)
    ensures a + (b + c + d + e) == (a + b) + c + (d + e)
  {
  }

  lemma CheckSelect(d: nat, rc: int, t: seq<Event>, stack: seq<nat>)
    requires 0 <= rc
    ensures Check([Select(d, rc)] + t, stack) == Check(t, [d] + stack)
  {
    assert ([Select(d, rc)] + t)[1..] == t;
  }

  lemma {:induction false} SelectsPush(a: Adapter, ans: Answers, stack: seq<nat>)
    requires AllSelect(a, ans)
    ensures Check(Selects(a, ans), stack) == Some(Selectable(a) + stack)
    decreases a
  {
    if a.Root? {
      assert [] + stack == stack;
    } else if a.hasSelect {
      var (d, rest) := (Depth(a), Selects(a.parent, ans));
      SelectsPush(a.parent, ans, [d] + stack);
      CheckSelect(d, ans.select(d), rest, stack);
      assert Selectable(a.parent) + ([d] + stack) == Selectable(a) + stack;
    } else {
      SelectsPush(a.parent, ans, stack);
      assert Selects(a, ans) == Selects(a.parent, ans) && Selectable(a) == Selectable(a.parent);
    }
  }

  lemma {:induction false} NoTransfers(a: Adapter, ans: Answers)
    ensures forall e :: e in Selects(a, ans) + Deselects(a, ans) ==> !e.Transfer?
    decreases a
  {
    if a.Mux? {
      NoTransfers(a.parent, ans);
    }
  }

  /** When no select fails there is one transfer, and at that moment exactly the muxes of the chain
      that have a select are selected, the innermost last; when one fails there is none. */
  lemma TransferWhileSelected(a: Adapter, ans: Answers) returns (before: seq<Event>, after: seq<Event>)
    ensures AllSelect(a, ans) ==>
              && Xfer(a, ans).1 == before + [Transfer(ans.transfer)] + after
              && Check(before, []) == Some(Selectable(a))
              && forall e :: e in before + after ==> !e.Transfer?
    ensures !AllSelect(a, ans) ==> forall e :: e in Xfer(a, ans).1 ==> !e.Transfer?
  {
    before, after := Selects(a, ans), Deselects(a, ans);
    InThisOrder(a, ans);
    NoTransfers(a, ans);
    if AllSelect(a, ans) {
      SelectsPush(a, ans, []);
      assert Selectable(a) + [] == Selectable(a);
    }
  }

  /** The result, from the answers alone: that of the first select to fail; otherwise that of the
      transfer if it is an error; otherwise that of the first deselect to fail, if one does. */
  lemma ResultIs(a: Adapter, ans: Answers)
    ensures !AllSelect(a, ans) ==> Some(Xfer(a, ans).0) == FirstFailure(Selects(a, ans))
    ensures AllSelect(a, ans) && ans.transfer < 0 ==> Xfer(a, ans).0 == ans.transfer
    ensures AllSelect(a, ans) && 0 <= ans.transfer ==>
              Xfer(a, ans).0 == match FirstFailure(Deselects(a, ans)) { case None => ans.transfer case Some(e) => e }
  {
    FirstFailureWins(a, ans);
    InThisOrder(a, ans);
    SelectsFail(a, ans);
    FirstFailureAppend(Selects(a, ans) + OnBus(a, ans), Deselects(a, ans));
    FirstFailureAppend(Selects(a, ans), OnBus(a, ans));
    assert [Transfer(ans.transfer)][1..] == [];
  }

  lemma {:induction false} SelectsFail(a: Adapter, ans: Answers)
    ensures FirstFailure(Selects(a, ans)).Some? <==> !AllSelect(a, ans)
    decreases a
  {
    if a.Mux? {
      var pre := [Select(Depth(a), ans.select(Depth(a)))];
      assert pre[1..] == [];
      SelectsFail(a.parent, ans);
      FirstFailureAppend(pre, Selects(a.parent, ans));
      assert [] + Selects(a.parent, ans) == Selects(a.parent, ans);
    }
  }

  lemma Joins(a: seq<Event>, b: seq<Event>, c: seq<Event>)
    ensures a + b + c == a + (b + c) && a + [] == a
  {
  }

  /** The real bus with everything that happens on it. */
  class Wire {
    var trace: seq<Event>

    constructor ()
      ensures trace == []
    {
      trace := [];
    }

    method Answer(e: Event) returns (rc: int)
      modifies this
      ensures rc == e.rc && trace == old(trace) + [e]
    {
      trace := trace + [e];
      rc := e.rc;
    }

    /** i2c_transfer on an adapter: mux_master_xfer, or the real master at the root. */
    method I2cTransfer(a: Adapter, ans: Answers) returns (rc: int)
      modifies this
      ensures rc == Xfer(a, ans).0 && trace == old(trace) + Xfer(a, ans).1
      ensures trace == old(trace) + (Selects(a, ans) + OnBus(a, ans) + Deselects(a, ans))
      ensures AllSelect(a, ans) && ans.transfer < 0 ==> rc == ans.transfer
      decreases a, 1
    {
      InThisOrder(a, ans);
      ResultIs(a, ans);
      if a.Root? {
        rc := Answer(Transfer(ans.transfer));
        return;
      }
      var d := Depth(a);
      if a.hasSelect {
        rc := Answer(Select(d, ans.select(d)));
        if rc < 0 {
          return;
        }
      }
      ghost var (before, rest) := (trace, Forwarded(a, ans).1);
      rc := ForwardAndDeselect(a, ans);
      Joins(old(trace), if a.hasSelect then [Select(d, ans.select(d))] else [], rest);
      assert trace == before + rest;
    }

    /** The rest of mux_master_xfer after a select that did not fail. */
    method ForwardAndDeselect(a: Adapter, ans: Answers) returns (rc: int)
      requires a.Mux?
      modifies this
      ensures rc == Forwarded(a, ans).0 && trace == old(trace) + Forwarded(a, ans).1
      decreases a, 0
    {
      var xferRc := I2cTransfer(a.parent, ans);
      var desRc := 0;
      ghost var last := if a.hasDeselect then [Deselect(Depth(a), ans.deselect(Depth(a)))] else [];
      Joins(old(trace), Xfer(a.parent, ans).1, last);
      if a.hasDeselect {
        desRc := Answer(Deselect(Depth(a), ans.deselect(Depth(a))));
      }
      if xferRc < 0 {
        return xferRc;
      }
      if desRc < 0 {
        return desRc;
      }
      return xferRc;
    }
  }
}
