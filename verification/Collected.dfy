/** How clean each recent cycle of one pump came out, pruned to those the pump might still hold. */
module Collected {
  import opened Results

  const KEPT_CYCLES := 10

  /** What is remembered of a cycle: its blank traces and whether any trace holds a repaired reply. */
  datatype Saved = Saved(blankTraces: seq<nat>, reconstructed: bool)

  /** How far a collection is from clean. */
  datatype Flaws = Flaws(blanks: nat, reconstructed: bool)

  const CLEAN := Flaws(0, false)

  function FlawsOf(s: Saved): Flaws {
    Flaws(|s.blankTraces|, s.reconstructed)
  }

  /** Fewer blank traces first, then nothing reconstructed. */
  predicate Less(a: Flaws, b: Flaws) {
    a.blanks < b.blanks || (a.blanks == b.blanks && !a.reconstructed && b.reconstructed)
  }

  predicate AtMost(a: Flaws, b: Flaws) {
    !Less(b, a)
  }

  lemma OrderIsTotal(a: Flaws, b: Flaws, c: Flaws)
    ensures AtMost(a, b) || AtMost(b, a)
    ensures AtMost(a, b) && AtMost(b, a) ==> a == b
    ensures AtMost(a, b) && AtMost(b, c) ==> AtMost(a, c)
    ensures AtMost(a, CLEAN) <==> a == CLEAN
  {}

  type Memory = map<nat, Saved>

  ghost predicate IsNewest(n: nat, keys: set<nat>) {
    n in keys && forall c <- keys :: c <= n
  }

  lemma {:induction false} NewestExists(keys: set<nat>)
    requires keys != {}
    ensures exists n :: IsNewest(n, keys)
  {
    var k :| k in keys;
    var rest := keys - {k};
    assert forall c <- keys :: c == k || c in rest;
    if rest == {} {
      assert IsNewest(k, keys);
    } else {
      NewestExists(rest);
      var m :| IsNewest(m, rest);
      assert IsNewest(if m > k then m else k, keys);
    }
  }

  ghost function Newest(keys: set<nat>): (n: nat)
    requires keys != {}
    ensures n in keys && forall c <- keys :: c <= n
  {
    NewestExists(keys);
    var n :| IsNewest(n, keys);
    n
  }

  /** Memory once a cycle is remembered and everything too far behind the newest remembered cycle is dropped. */
  ghost function Remember(before: Memory, cycle: nat, saved: Saved): Memory {
    var all := before[cycle := saved];
    assert cycle in all.Keys;
    var newest := Newest(all.Keys);
    map c | c in all && c > newest - KEPT_CYCLES :: all[c]
  }

  /** Exactly which cycles are still remembered, and as what. */
  lemma RememberExactly(before: Memory, cycle: nat, saved: Saved, c: nat)
    ensures var all := before[cycle := saved];
      && (c in Remember(before, cycle, saved) <==> c in all && forall k <- all :: c > k - 10)
      && (c in Remember(before, cycle, saved) ==> Remember(before, cycle, saved)[c] == all[c])
  {}

  class CollectedCycles {
    var cycles: Memory
    // what is on disk, swapped in whole, so it is always the memory of some finished save
    var file: Memory
    var saves: nat
    const saveWorks: nat -> bool

    constructor (file: Memory, saveWorks: nat -> bool)
      ensures cycles == file && this.file == file && this.saveWorks == saveWorks && saves == 0
    {
      cycles, this.file, saves := file, file, 0;
      this.saveWorks := saveWorks;
    }

    function Get(cycle: nat): Option<Saved>
      reads this
    {
      if cycle in cycles then Some(cycles[cycle]) else None
    }

    /** Remember a cycle and save. A save that fails raises, leaving what was on disk. */
    method Set(cycle: nat, blankTraces: seq<nat>, reconstructed: bool) returns (ok: bool)
      modifies this
      ensures cycles == Remember(old(cycles), cycle, Saved(blankTraces, reconstructed))
      ensures ok == saveWorks(old(saves)) && saves == old(saves) + 1
      ensures file == if ok then cycles else old(file)
    {
      cycles := cycles[cycle := Saved(blankTraces, reconstructed)];
      ghost var all := cycles;
      var newest := cycle;
      var left := cycles.Keys;
      while left != {}
        invariant left <= cycles.Keys && newest in cycles && cycles == all
        invariant forall c :: c in cycles && c !in left ==> c <= newest
        decreases left
      {
        var c :| c in left;
        if c > newest {
          newest := c;
        }
        left := left - {c};
      }
      assert newest in all.Keys;
      assert newest == Newest(all.Keys);
      cycles := map c | c in cycles && c > newest - KEPT_CYCLES :: cycles[c];
      ok := saveWorks(saves);
      saves := saves + 1;
      if ok {
        file := cycles;
      }
    }
  }

  /** Whether a cycle has nothing left to be collected again for. */
  predicate AlreadyClean(collected: Option<Saved>) {
    collected.Some? && FlawsOf(collected.value) == CLEAN
  }
}
