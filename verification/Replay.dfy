/** Forward replay of the log as an incremental transfer carries it: the rows of one
    serial are regrouped as all deletes, then all adds. This module says exactly when
    the regrouping means the same as the log. */
module Replay {
  import opened Records
  import opened Zone

  predicate Touches(e: LogRow, op: LogOp, x: WireRr) { e.RrLog? && e.op == op && Wire(e.rr) == x }

  ghost predicate Mentions(log: seq<LogRow>, op: LogOp, x: WireRr) {
    exists i | 0 <= i < |log| :: Touches(log[i], op, x)
  }

  /** The wire records of one operation, in log order; SOA rows carry none. */
  function Wires(log: seq<LogRow>, op: LogOp): seq<WireRr> {
    if log == [] then []
    else
      var e := log[|log| - 1];
      Wires(log[..|log| - 1], op) + (if e.RrLog? && e.op == op then [Wire(e.rr)] else [])
  }

  lemma {:induction false} WiresMention(log: seq<LogRow>, op: LogOp, x: WireRr)
    ensures x in Wires(log, op) <==> Mentions(log, op, x)
  {
    if log != [] {
      var n := |log| - 1;
      WiresMention(log[..n], op, x);
      assert Mentions(log, op, x) <==> Mentions(log[..n], op, x) || Touches(log[n], op, x) by {
        if Mentions(log[..n], op, x) {
          var i :| 0 <= i < n && Touches(log[..n][i], op, x);
          assert Touches(log[i], op, x);
        }
        if Mentions(log, op, x) && !Touches(log[n], op, x) {
          var i :| 0 <= i < |log| && Touches(log[i], op, x);
          assert Touches(log[..n][i], op, x);
        }
      }
    }
  }

  /** One step as a secondary applies it: delete, then add. */
  ghost function Regrouped(w: set<WireRr>, dels: seq<WireRr>, adds: seq<WireRr>): set<WireRr> {
    w - (set x | x in dels) + (set x | x in adds)
  }

  /** The last thing the log says about `x`. */
  ghost function Verdict(log: seq<LogRow>, x: WireRr): Option<LogOp> {
    if log == [] then None
    else if log[|log| - 1].RrLog? && Wire(log[|log| - 1].rr) == x then Some(log[|log| - 1].op)
    else Verdict(log[..|log| - 1], x)
  }

  ghost predicate Present(w: set<WireRr>, v: Option<LogOp>, x: WireRr) {
    v == Some(Added) || (v == None && x in w)
  }

  lemma {:induction false} VerdictTouches(log: seq<LogRow>, x: WireRr)
    ensures Verdict(log, x) == None <==> x !in Wires(log, Added) && x !in Wires(log, Deleted)
    ensures Verdict(log, x).Some? ==> x in Wires(log, Verdict(log, x).value)
  {
    if log != [] { VerdictTouches(log[..|log| - 1], x); }
  }

  lemma {:induction false} VerdictAppend(a: seq<LogRow>, b: seq<LogRow>, x: WireRr)
    ensures Verdict(a + b, x) == if Verdict(b, x).Some? then Verdict(b, x) else Verdict(a, x)
    decreases |b|
  {
    if b == [] {
      assert a + b == a;
    } else {
      assert (a + b)[..|a + b| - 1] == a + b[..|b| - 1];
      VerdictAppend(a, b[..|b| - 1], x);
    }
  }

  /** The committed set after a legal log, record by record, is what the last row said. */
  lemma {:induction false} PlayVerdict(s: set<Rr>, log: seq<LogRow>, x: WireRr)
    requires KeyUnique(s) && Legal(s, log)
    ensures x in WireSet(Play(s, log)) <==> Present(WireSet(s), Verdict(log, x), x)
  {
    if log != [] {
      var n := |log| - 1;
      PlayVerdict(s, log[..n], x);
      PlayKeyUnique(s, log[..n]);
      var t, e := Play(s, log[..n]), log[n];
      if e.RrLog? {
        if Wire(e.rr) == x {
          assert e.op == Added ==> e.rr in Apply(t, e);
        } else {
          assert forall rr | Wire(rr) == x :: rr in t <==> rr in Apply(t, e);
        }
      }
    }
  }

  /** No record this log adds ends up deleted by it. */
  ghost predicate Settled(log: seq<LogRow>) {
    forall x | x in Wires(log, Added) :: Verdict(log, x) == Some(Added)
  }

  /** Regrouping one serial's rows gives the committed record set exactly when the
      serial's last word on every record it adds is an ADD. */
  lemma RegroupExact(s: set<Rr>, log: seq<LogRow>)
    requires KeyUnique(s) && Legal(s, log)
    ensures Regrouped(WireSet(s), Wires(log, Deleted), Wires(log, Added)) == WireSet(Play(s, log)) <==> Settled(log)
  {
    var r, t := Regrouped(WireSet(s), Wires(log, Deleted), Wires(log, Added)), WireSet(Play(s, log));
    forall x ensures (x in r <==> x in t) <==> (x in Wires(log, Added) ==> Verdict(log, x) == Some(Added)) {
      PlayVerdict(s, log, x);
      VerdictTouches(log, x);
    }
    if r != t {
      var x :| (x in r) != (x in t);
      assert x in Wires(log, Added) && Verdict(log, x) != Some(Added);
    }
  }

  // ---- Strict application: deletes hit, adds are fresh ----------------------

  ghost predicate Distinct<T(!new)>(q: seq<T>) { forall i, j | 0 <= i < j < |q| :: q[i] != q[j] }

  /** Every delete names a record that is there, every add one that is not, none twice. */
  ghost predicate Strict(w: set<WireRr>, dels: seq<WireRr>, adds: seq<WireRr>) {
    && Distinct(dels) && Distinct(adds)
    && (forall x | x in dels :: x in w)
    && (forall x | x in adds :: x !in w || x in dels)
  }

  /** No row deletes a record that an earlier row of the same log adds. */
  ghost predicate NoLateDelete(log: seq<LogRow>) {
    forall i, j | 0 <= i < j < |log| && log[i].RrLog? && log[j].RrLog? && log[i].op == Added && log[j].op == Deleted ::
      Wire(log[i].rr) != Wire(log[j].rr)
  }

  lemma {:induction false} NoLateDeleteSettles(log: seq<LogRow>)
    requires NoLateDelete(log)
    ensures Settled(log)
  {
    forall x | x in Wires(log, Added) ensures Verdict(log, x) == Some(Added) {
      AddedStays(log, x);
    }
  }

  lemma {:induction false} AddedStays(log: seq<LogRow>, x: WireRr)
    requires NoLateDelete(log) && x in Wires(log, Added)
    ensures Verdict(log, x) == Some(Added)
  {
    var n := |log| - 1;
    WiresMention(log, Added, x);
    if !Touches(log[n], Added, x) {
      var i :| 0 <= i < |log| && Touches(log[i], Added, x);
      assert Touches(log[..n][i], Added, x);
      WiresMention(log[..n], Added, x);
      AddedStays(log[..n], x);
    }
  }

  lemma {:induction false} StrictWhenNoLateDelete(s: set<Rr>, log: seq<LogRow>)
    requires KeyUnique(s) && Legal(s, log) && NoLateDelete(log)
    ensures Strict(WireSet(s), Wires(log, Deleted), Wires(log, Added))
  {
    if log != [] {
      var n := |log| - 1;
      var front, e := log[..n], log[n];
      StrictWhenNoLateDelete(s, front);
      if e.RrLog? {
        var x := Wire(e.rr);
        PlayKeyUnique(s, front);
        PlayVerdict(s, front, x);
        VerdictTouches(front, x);
        WiresMention(front, Added, x);
        assert x in Wires(front, Added) ==> Verdict(front, x) == Some(Added) by {
          if x in Wires(front, Added) { AddedStays(front, x); }
        }
      }
    }
  }

  lemma {:induction false} WiresAppend(a: seq<LogRow>, b: seq<LogRow>, op: LogOp)
    ensures Wires(a + b, op) == Wires(a, op) + Wires(b, op)
    decreases |b|
  {
    if b == [] {
      assert a + b == a;
    } else {
      assert (a + b)[..|a + b| - 1] == a + b[..|b| - 1];
      WiresAppend(a, b[..|b| - 1], op);
    }
  }

  lemma TwoMentions(log: seq<LogRow>, op: LogOp, i: nat, j: nat, x: WireRr)
    requires i < j < |log| && Touches(log[i], op, x) && Touches(log[j], op, x)
    ensures !Distinct(Wires(log, op))
  {
    var a, b := log[..j], log[j..];
    assert log == a + b;
    WiresAppend(a, b, op);
    assert Touches(a[i], op, x) && Touches(b[0], op, x);
    WiresMention(a, op, x);
    WiresMention(b, op, x);
    var p :| 0 <= p < |Wires(a, op)| && Wires(a, op)[p] == x;
    var q :| 0 <= q < |Wires(b, op)| && Wires(b, op)[q] == x;
    assert Wires(log, op)[p] == Wires(log, op)[|Wires(a, op)| + q];
  }

  lemma {:induction false} LegalPrefix(s: set<Rr>, log: seq<LogRow>, i: nat)
    requires Legal(s, log) && i < |log|
    ensures Legal(s, log[..i]) && Fits(Play(s, log[..i]), log[i])
  {
    var n := |log| - 1;
    if i < n {
      LegalPrefix(s, log[..n], i);
      assert log[..n][..i] == log[..i];
    }
  }

  lemma FreshWire(s: set<Rr>, e: LogRow, x: WireRr)
    requires Touches(e, Added, x) && Fits(s, e)
    ensures x !in WireSet(s)
  {
    assert forall rr | rr in s :: KeyOf(rr) != x.key;
  }

  /** A record there at the start that is added must have been deleted first. */
  lemma DeletedBefore(s: set<Rr>, log: seq<LogRow>, i: nat, x: WireRr)
    requires KeyUnique(s) && Legal(s, log) && i < |log| && Touches(log[i], Added, x) && x in WireSet(s)
    ensures Mentions(log[..i], Deleted, x)
  {
    LegalPrefix(s, log, i);
    FreshWire(Play(s, log[..i]), log[i], x);
    PlayVerdict(s, log[..i], x);
    var v := Verdict(log[..i], x);
    assert v.Some? && (v.value.Added? || v.value.Deleted?);
    VerdictTouches(log[..i], x);
    WiresMention(log[..i], Deleted, x);
  }

  lemma LateDeleteNotStrict(s: set<Rr>, log: seq<LogRow>, i: nat, j: nat, x: WireRr)
    requires KeyUnique(s) && Legal(s, log) && i < j < |log|
    requires Touches(log[i], Added, x) && Touches(log[j], Deleted, x)
    ensures !Strict(WireSet(s), Wires(log, Deleted), Wires(log, Added))
  {
    assert x in Wires(log, Deleted) by { WiresMention(log, Deleted, x); }
    if x in WireSet(s) {
      DeletedBefore(s, log, i, x);
      var p :| 0 <= p < i && Touches(log[..i][p], Deleted, x);
      TwoMentions(log, Deleted, p, j, x);
    }
  }

  /** A strict secondary accepts the regrouped serial exactly when no row of the
      serial deletes a record an earlier row of it added. */
  lemma StrictExact(s: set<Rr>, log: seq<LogRow>)
    requires KeyUnique(s) && Legal(s, log)
    ensures Strict(WireSet(s), Wires(log, Deleted), Wires(log, Added)) <==> NoLateDelete(log)
  {
    if NoLateDelete(log) {
      StrictWhenNoLateDelete(s, log);
    } else {
      var i, j :| 0 <= i < j < |log| && log[i].RrLog? && log[j].RrLog? && log[i].op == Added && log[j].op == Deleted
                  && Wire(log[i].rr) == Wire(log[j].rr);
      LateDeleteNotStrict(s, log, i, j, Wire(log[i].rr));
    }
  }
}
