/** REL tables keep their addends in the words they relocate, so a second pass
    relocates the result of the first: exactly when that does no harm, and by
    how much a word drifts. */
module HostRel {
  import opened Words
  import opened GuestMemory
  import opened Resolver
  import opened Relocation
  import opened HostRelocation

  /** Two entries' words do not overlap. */
  predicate TargetsApart(ld: Loader, e: HostEntry, f: HostEntry) {
    Relocates(e) && Relocates(f) ==>
      HostTarget(ld, e) + 8 <= HostTarget(ld, f) || HostTarget(ld, f) + 8 <= HostTarget(ld, e)
  }

  /** Distinct entries relocate distinct, mapped words. */
  ghost predicate Distinct(m: Mem, ld: Loader, es: seq<HostEntry>) {
    && (forall e | e in es && Relocates(e) :: Mapped(m, HostTarget(ld, e), 8))
    && (forall i, j | 0 <= i < j < |es| :: TargetsApart(ld, es[i], es[j]))
  }

  // What a pass does to each word ------------------------------------------------------------------

  lemma PokePeek(m: Mem, t: int, v: U64)
    requires Mapped(m, t, 8)
    ensures PeekWord(Poke(m, t, ToLE(v, 8)), t) == v
  {
    WordRoundTrip(v);
    var bs := ToLE(v, 8);
    hide ToLE, Word;
    var r := Poke(m, t, bs);
    forall i | 0 <= i < 8
      ensures Peek(r, t, 8)[i] == bs[i]
    {
      assert t + i in m;
    }
    assert Peek(r, t, 8) == bs;
  }

  lemma PokeFrame(m: Mem, t: int, v: U64)
    ensures forall a | a in m && !(t <= a < t + 8) :: Poke(m, t, ToLE(v, 8))[a] == m[a]
  {
    hide ToLE;
  }

  lemma WordKept(m: Mem, m1: Mem, t: int)
    requires m1.Keys == m.Keys && forall a | a in m && t <= a < t + 8 :: m1[a] == m[a]
    ensures PeekWord(m1, t) == PeekWord(m, t)
  {
    PeekAgree(m, m1, t, 8);
  }

  /** Words relocated by the entries, bytes of no entry kept. */
  ghost predicate WordsAfter(m0: Mem, m: Mem, after: Mem, ld: Loader, siblings: seq<map<string, U64>>, host: Host,
                             es: seq<HostEntry>) {
    && after.Keys == m.Keys
    && (forall e | e in es && Relocates(e) ::
          PeekWord(after, HostTarget(ld, e)) ==
          Effect(ld, e, SymbolOf(m0, ld, siblings, host, e), PeekWord(m, HostTarget(ld, e))))
    && (forall a | a in m && !Covered(ld, es, a) :: after[a] == m[a])
  }

  lemma DistinctTail(m: Mem, ld: Loader, es: seq<HostEntry>)
    requires Distinct(m, ld, es) && es != []
    ensures Distinct(m, ld, es[1..])
    ensures Relocates(es[0]) ==> Mapped(m, HostTarget(ld, es[0]), 8)
    ensures forall e | e in es[1..] :: TargetsApart(ld, es[0], e)
  {
    hide TargetsApart, HostTarget, Relocates;
    var rest := es[1..];
    assert es[0] in es && forall e | e in rest :: e in es;
    forall i, j | 0 <= i < j < |rest|
      ensures TargetsApart(ld, rest[i], rest[j])
    {
      assert rest[i] == es[i + 1] && rest[j] == es[j + 1];
    }
    forall e | e in rest
      ensures TargetsApart(ld, es[0], e)
    {
      var j :| 0 <= j < |rest| && rest[j] == e;
      assert e == es[j + 1];
    }
  }

  lemma ApartNotCovered(ld: Loader, e: HostEntry, es: seq<HostEntry>, a: int)
    requires Relocates(e) && HostTarget(ld, e) <= a < HostTarget(ld, e) + 8
    requires forall f | f in es :: TargetsApart(ld, e, f)
    ensures !Covered(ld, es, a)
  {
  }

  lemma {:induction false} StepsWords(m0: Mem, m: Mem, ld: Loader, siblings: seq<map<string, U64>>, host: Host,
                                      es: seq<HostEntry>)
    requires Distinct(m, ld, es)
    ensures WordsAfter(m0, m, StepsFrom(m0, m, ld, siblings, host, es), ld, siblings, host, es)
    decreases |es|
  {
    hide StepFrom, Distinct, WordsAfter;
    if es == [] {
      NoWords(m0, m, ld, siblings, host);
    } else {
      DistinctTail(m, ld, es);
      var m1 := StepFrom(m0, m, ld, siblings, host, es[0]);
      DistinctSame(m, m1, ld, es[1..]);
      StepsWords(m0, m1, ld, siblings, host, es[1..]);
      WordsCons(m0, m, m1, StepsFrom(m0, m1, ld, siblings, host, es[1..]), ld, siblings, host, es);
    }
  }

  lemma NoWords(m0: Mem, m: Mem, ld: Loader, siblings: seq<map<string, U64>>, host: Host)
    ensures WordsAfter(m0, m, m, ld, siblings, host, [])
  {
  }

  lemma DistinctSame(m: Mem, m1: Mem, ld: Loader, es: seq<HostEntry>)
    requires Distinct(m, ld, es) && m1.Keys == m.Keys
    ensures Distinct(m1, ld, es)
  {
    hide TargetsApart, HostTarget, Relocates;
    forall e | e in es && Relocates(e)
      ensures Mapped(m1, HostTarget(ld, e), 8)
    {
      assert Mapped(m, HostTarget(ld, e), 8);
    }
  }

  /** One step's word and frame. */
  lemma StepWord(m0: Mem, m: Mem, ld: Loader, siblings: seq<map<string, U64>>, host: Host, e: HostEntry)
    requires Relocates(e) ==> Mapped(m, HostTarget(ld, e), 8)
    ensures var m1 := StepFrom(m0, m, ld, siblings, host, e);
            && (Relocates(e) ==>
                  PeekWord(m1, HostTarget(ld, e)) ==
                  Effect(ld, e, SymbolOf(m0, ld, siblings, host, e), PeekWord(m, HostTarget(ld, e))))
            && (forall a | a in m && !(Relocates(e) && HostTarget(ld, e) <= a < HostTarget(ld, e) + 8) :: m1[a] == m[a])
  {
    hide Effect, SymbolOf, PeekWord, HostTarget, Poke, Relocates;
    if Relocates(e) {
      var v := Effect(ld, e, SymbolOf(m0, ld, siblings, host, e), PeekWord(m, HostTarget(ld, e)));
      PokePeek(m, HostTarget(ld, e), v);
      PokeFrame(m, HostTarget(ld, e), v);
    }
  }

  lemma WordsCons(m0: Mem, m: Mem, m1: Mem, after: Mem, ld: Loader, siblings: seq<map<string, U64>>, host: Host,
                  es: seq<HostEntry>)
    requires es != [] && m1 == StepFrom(m0, m, ld, siblings, host, es[0])
    requires Relocates(es[0]) ==> Mapped(m, HostTarget(ld, es[0]), 8)
    requires forall e | e in es[1..] :: TargetsApart(ld, es[0], e)
    requires WordsAfter(m0, m1, after, ld, siblings, host, es[1..])
    ensures WordsAfter(m0, m, after, ld, siblings, host, es)
  {
    hide StepFrom, Effect, SymbolOf, PeekWord, Covered, TargetsApart, HostTarget, Relocates;
    StepWord(m0, m, ld, siblings, host, es[0]);
    forall e | e in es && Relocates(e)
      ensures PeekWord(after, HostTarget(ld, e)) ==
              Effect(ld, e, SymbolOf(m0, ld, siblings, host, e), PeekWord(m, HostTarget(ld, e)))
    {
      if e in es[1..] {
        TailWord(m, m1, ld, es[0], e);
      } else {
        assert e == es[0];
        HeadWord(m1, after, ld, e, es[1..]);
      }
    }
    forall a | a in m && !Covered(ld, es, a)
      ensures after[a] == m[a]
    {
      CoveredCons(ld, es, a);
      OneCovered(ld, es[0], a);
    }
  }

  /** The first entry's step leaves a later entry's word alone. */
  lemma TailWord(m: Mem, m1: Mem, ld: Loader, e: HostEntry, f: HostEntry)
    requires TargetsApart(ld, e, f) && Relocates(f) && m1.Keys == m.Keys
    requires forall a | a in m && !(Relocates(e) && HostTarget(ld, e) <= a < HostTarget(ld, e) + 8) :: m1[a] == m[a]
    ensures PeekWord(m1, HostTarget(ld, f)) == PeekWord(m, HostTarget(ld, f))
  {
    hide HostTarget;
    WordKept(m, m1, HostTarget(ld, f));
  }

  /** The later entries leave the first one's word alone. */
  lemma HeadWord(m1: Mem, after: Mem, ld: Loader, e: HostEntry, rest: seq<HostEntry>)
    requires Relocates(e) && (forall f | f in rest :: TargetsApart(ld, e, f)) && after.Keys == m1.Keys
    requires forall a | a in m1 && !Covered(ld, rest, a) :: after[a] == m1[a]
    ensures PeekWord(after, HostTarget(ld, e)) == PeekWord(m1, HostTarget(ld, e))
  {
    hide Covered, TargetsApart;
    forall a | a in m1 && HostTarget(ld, e) <= a < HostTarget(ld, e) + 8
      ensures after[a] == m1[a]
    {
      ApartNotCovered(ld, e, rest, a);
    }
    WordKept(m1, after, HostTarget(ld, e));
  }

  // When a second pass is harmless ----------------------------------------------------------------------

  /** An entry that a second pass does not relocate twice. */
  predicate Repeatable(e: HostEntry, firstSymbol: U64) {
    e.addend.None? ==> e.kind != R_RELATIVE && (e.kind == R_ABS64 ==> firstSymbol == 0)
  }

  lemma EffectTwice(ld: Loader, e: HostEntry, s1: U64, s2: U64, w: U64)
    requires Relocates(e) && ld.base != 0
    ensures Effect(ld, e, s2, Effect(ld, e, s1, w)) == Effect(ld, e, s2, w) <==> Repeatable(e, s1)
  {
  }

  lemma SameBytes(m: Mem, m2: Mem, t: int)
    requires m.Keys == m2.Keys && Mapped(m, t, 8) && PeekWord(m, t) == PeekWord(m2, t)
    ensures forall a | t <= a < t + 8 :: m[a] == m2[a]
  {
    StoreAfterLoad(Peek(m, t, 8));
    StoreAfterLoad(Peek(m2, t, 8));
    hide ToLE, FromLE;
    assert Peek(m, t, 8) == Peek(m2, t, 8);
    forall a | t <= a < t + 8
      ensures m[a] == m2[a]
    {
      assert a in m && Peek(m, t, 8)[a - t] == m[a] && Peek(m2, t, 8)[a - t] == m2[a];
    }
  }

  /** Equal words and equal bytes elsewhere make equal memories. */
  lemma SameMemory(m: Mem, x: Mem, y: Mem, ld: Loader, es: seq<HostEntry>)
    requires x.Keys == m.Keys == y.Keys && Distinct(m, ld, es)
    requires forall e | e in es && Relocates(e) :: PeekWord(x, HostTarget(ld, e)) == PeekWord(y, HostTarget(ld, e))
    requires forall a | a in m && !Covered(ld, es, a) :: x[a] == y[a]
    ensures x == y
  {
    hide PeekWord, HostTarget, TargetsApart;
    forall a | a in m
      ensures x[a] == y[a]
    {
      if Covered(ld, es, a) {
        var e :| e in es && Relocates(e) && HostTarget(ld, e) <= a < HostTarget(ld, e) + 8;
        assert Mapped(m, HostTarget(ld, e), 8);
        assert Mapped(x, HostTarget(ld, e), 8);
        SameBytes(x, y, HostTarget(ld, e));
      }
    }
  }

  lemma PassWords(m0: Mem, m: Mem, ld: Loader, strsz: nat, siblings: seq<map<string, U64>>, host: Host)
    requires Safe(m0, ld, strsz) && HostKept(m0, m, ld, strsz) && Distinct(m0, ld, AllEntries(m0, ld))
    ensures WordsAfter(m0, m, Pass(m, ld, siblings, host), ld, siblings, host, AllEntries(m0, ld))
    ensures HostKept(m0, Pass(m, ld, siblings, host), ld, strsz)
  {
    hide Safe, Distinct, AllEntries, Pass, StepsFrom, WordsAfter, InHostTables;
    PassIsSteps(m0, m, ld, strsz, siblings, host);
    DistinctSame(m0, m, ld, AllEntries(m0, ld));
    StepsWords(m0, m, ld, siblings, host, AllEntries(m0, ld));
  }

  /** Main result: for any mixture of REL and RELA entries with distinct words,
      relocating after a first pass leaves what relocating once would have,
      exactly when no REL entry is RELATIVE and no REL entry's ABS64 symbol
      resolved to a non-zero address the first time. */
  lemma SecondPassIff(m: Mem, ld: Loader, strsz: nat, first: seq<map<string, U64>>, second: seq<map<string, U64>>,
                      host: Host)
    requires Safe(m, ld, strsz) && Distinct(m, ld, AllEntries(m, ld))
    ensures Pass(Pass(m, ld, first, host), ld, second, host) == Pass(m, ld, second, host) <==>
            forall e | e in AllEntries(m, ld) && Relocates(e) :: Repeatable(e, SymbolOf(m, ld, first, host, e))
  {
    hide Safe, Distinct, AllEntries, Pass, WordsAfter, HostKept, Repeatable, SymbolOf, Relocates;
    var es := AllEntries(m, ld);
    KeptRefl(m, ld, strsz);
    PassWords(m, m, ld, strsz, first, host);
    var m1 := Pass(m, ld, first, host);
    PassWords(m, m1, ld, strsz, second, host);
    PassWords(m, m, ld, strsz, second, host);
    var x, y := Pass(m1, ld, second, host), Pass(m, ld, second, host);
    EntriesNeedBase(m, ld);
    if x == y {
      forall e | e in es && Relocates(e)
        ensures Repeatable(e, SymbolOf(m, ld, first, host, e))
      {
        TwoWords(m, m1, x, y, ld, first, second, host, es, e);
      }
    }
    if forall e | e in es && Relocates(e) :: Repeatable(e, SymbolOf(m, ld, first, host, e)) {
      forall e | e in es && Relocates(e)
        ensures PeekWord(x, HostTarget(ld, e)) == PeekWord(y, HostTarget(ld, e))
      {
        TwoWords(m, m1, x, y, ld, first, second, host, es, e);
      }
      SameRest(m, m1, x, y, ld, first, second, host, es);
      SameMemory(m, x, y, ld, es);
    }
  }

  lemma EntriesNeedBase(m: Mem, ld: Loader)
    ensures AllEntries(m, ld) != [] ==> ld.base != 0
  {
  }

  lemma TwoWords(m: Mem, m1: Mem, x: Mem, y: Mem, ld: Loader, first: seq<map<string, U64>>,
                 second: seq<map<string, U64>>, host: Host, es: seq<HostEntry>, e: HostEntry)
    requires WordsAfter(m, m, m1, ld, first, host, es) && WordsAfter(m, m1, x, ld, second, host, es)
    requires WordsAfter(m, m, y, ld, second, host, es)
    requires e in es && Relocates(e) && ld.base != 0
    ensures PeekWord(x, HostTarget(ld, e)) == PeekWord(y, HostTarget(ld, e)) <==>
              Repeatable(e, SymbolOf(m, ld, first, host, e))
  {
    EffectTwice(ld, e, SymbolOf(m, ld, first, host, e), SymbolOf(m, ld, second, host, e),
      PeekWord(m, HostTarget(ld, e)));
    hide Effect, SymbolOf, PeekWord, HostTarget, Repeatable, Relocates, Covered;
  }

  lemma SameRest(m: Mem, m1: Mem, x: Mem, y: Mem, ld: Loader, first: seq<map<string, U64>>,
                 second: seq<map<string, U64>>, host: Host, es: seq<HostEntry>)
    requires WordsAfter(m, m, m1, ld, first, host, es) && WordsAfter(m, m1, x, ld, second, host, es)
    requires WordsAfter(m, m, y, ld, second, host, es)
    ensures x.Keys == m.Keys == y.Keys
    ensures forall a | a in m && !Covered(ld, es, a) :: x[a] == y[a]
  {
    hide Effect, SymbolOf, PeekWord, HostTarget, Relocates, Covered;
  }

  // Drift --------------------------------------------------------------------------------------------

  function Passes(m: Mem, ld: Loader, siblings: seq<map<string, U64>>, host: Host, k: nat): Mem {
    if k == 0 then m else Pass(Passes(m, ld, siblings, host, k - 1), ld, siblings, host)
  }

  /** A REL RELATIVE word holds A + k * base after k passes. */
  lemma {:induction false} RelRelativeDrift(m: Mem, ld: Loader, strsz: nat, siblings: seq<map<string, U64>>,
                                            host: Host, k: nat, e: HostEntry)
    requires Safe(m, ld, strsz) && Distinct(m, ld, AllEntries(m, ld))
    requires e in AllEntries(m, ld) && e.kind == R_RELATIVE && e.addend.None?
    ensures PeekWord(Passes(m, ld, siblings, host, k), HostTarget(ld, e)) ==
              Wrap(PeekWord(m, HostTarget(ld, e)) + k * ld.base)
    ensures HostKept(m, Passes(m, ld, siblings, host, k), ld, strsz)
  {
    hide Safe, Distinct, AllEntries, Pass, HostKept, HostTarget, PeekWord, Wrap;
    if k == 0 {
      NoDrift(PeekWord(m, HostTarget(ld, e)), ld.base);
      KeptRefl(m, ld, strsz);
    } else {
      RelRelativeDrift(m, ld, strsz, siblings, host, k - 1, e);
      var mk := Passes(m, ld, siblings, host, k - 1);
      PassDrift(m, mk, ld, strsz, siblings, host, e);
      DriftStep(PeekWord(m, HostTarget(ld, e)), ld.base, k);
    }
  }

  lemma NoDrift(w: U64, base: U64)
    ensures Wrap(w + 0 * base) == w
  {
  }

  lemma PassDrift(m: Mem, mk: Mem, ld: Loader, strsz: nat, siblings: seq<map<string, U64>>, host: Host, e: HostEntry)
    requires Safe(m, ld, strsz) && Distinct(m, ld, AllEntries(m, ld)) && HostKept(m, mk, ld, strsz)
    requires e in AllEntries(m, ld) && e.kind == R_RELATIVE && e.addend.None?
    ensures PeekWord(Pass(mk, ld, siblings, host), HostTarget(ld, e)) == Wrap(ld.base + PeekWord(mk, HostTarget(ld, e)))
    ensures HostKept(m, Pass(mk, ld, siblings, host), ld, strsz)
  {
    hide Safe, Distinct, AllEntries, Pass, HostKept, HostTarget, PeekWord, Covered, SymbolOf;
    PassWords(m, mk, ld, strsz, siblings, host);
  }

  lemma DriftStep(w: U64, base: U64, k: nat)
    requires k > 0
    ensures Wrap(base + Wrap(w + (k - 1) * base)) == Wrap(w + k * base)
  {
    WrapShift(w + (k - 1) * base, base);
    assert w + (k - 1) * base + base == w + k * base;
  }
}
