/** The symbols the two loaders find in one image: the emulator's scan up to an
    empty entry, and the host's over the entries its hash section counts. */
module HostSymbols {
  import opened Words
  import opened GuestMemory
  import opened VmState
  import opened Resolver
  import opened Relocation
  import opened Image
  import opened Position
  import opened Twins
  import opened Resolutions
  import opened HostRelocation
  import opened GnuHashTable
  import opened Agreement

  function SymbolAtHost(m: Mem, symtab: U64, i: nat): Sym {
    DecodeSym(Peek(m, symtab + SYM_SIZE * i, SYM_SIZE))
  }

  function NameAtHost(m: Mem, strtab: U64, name: U32): string {
    Chars(CStringAt(m, strtab + name))
  }

  function SymbolHere(m: Mem, symtab: U64, strtab: U64, i: nat): Symbol {
    var sym := SymbolAtHost(m, symtab, i);
    Symbol(NameAtHost(m, strtab, sym.name), sym.value)
  }

  /** The first `n` symbols, as the host reads them from its image. */
  function SymbolsIn(m: Mem, symtab: U64, strtab: U64, n: nat): (syms: seq<Symbol>)
    ensures |syms| == n && forall i | 0 <= i < n :: syms[i] == SymbolHere(m, symtab, strtab, i)
  {
    seq(n, i requires 0 <= i < n => SymbolHere(m, symtab, strtab, i))
  }

  /** The two tables of one library in the two images. */
  ghost predicate TablesTwin(m: Mem, mh: Mem, lib: Lib, symtab: U64, strtab: U64, hostBase: U64, span: nat, d: int) {
    && SameImage(m, mh, lib.base, span, d)
    && hostBase == lib.base - lib.minVaddr + d
    && symtab == lib.symtab + d && strtab == lib.strtab + d
    && lib.base <= lib.symtab && lib.base <= lib.strtab && lib.strtab + lib.strsz <= lib.base + span < TWO64
    && lib.strsz > 0 && lib.strtab + lib.strsz - 1 in m && m[lib.strtab + lib.strsz - 1] == 0
  }

  /** A symbol that both loaders read as the same definition, or as none. */
  predicate Plain(m: Mem, lib: Lib, sym: Sym) {
    sym.value != 0 ==>
      && sym.name < lib.strsz && BufferReadable(m, lib, sym.name)
      && 0 < |CStringAt(m, lib.strtab + sym.name)| < NAME_BUFFER
  }

  /** Every one of the first `count` symbols is in the image and plain. */
  ghost predicate SymbolsPlain(m: Mem, lib: Lib, span: nat, count: nat) {
    && lib.symtab + SYM_SIZE * count <= lib.base + span
    && forall i: nat | i < count :: PlainAt(m, lib, i)
  }

  predicate PlainAt(m: Mem, lib: Lib, i: nat) {
    match Read(m, lib.symtab + SYM_SIZE * i, SYM_SIZE)
    case Some(bs) => Plain(m, lib, DecodeSym(bs))
    case None => false
  }

  /** No entry from `count` on, before the scan stops, defines a name. */
  ghost predicate NoneAfter(m: Mem, lib: Lib, count: nat, n: nat) {
    forall i: nat | count <= i < n :: !ScanEntry(m, lib, i).Define?
  }

  lemma NameAlike(m: Mem, mh: Mem, lib: Lib, symtab: U64, strtab: U64, hostBase: U64, span: nat, d: int, sym: Sym)
    requires TablesTwin(m, mh, lib, symtab, strtab, hostBase, span, d) && Plain(m, lib, sym) && sym.value != 0
    ensures NameAt(m, lib, sym.name) == NameAtHost(mh, strtab, sym.name) != ""
  {
    hide CStringAt, Chars, NameAt, SameImage, Plain;
    PlainName(m, lib, sym);
    StringBefore(m, lib.strtab + sym.name, lib.strtab + lib.strsz - 1);
    CStringAgrees(m, mh, lib.base, span, d, lib.strtab + sym.name);
    assert strtab + sym.name == lib.strtab + sym.name + d;
  }

  lemma PlainName(m: Mem, lib: Lib, sym: Sym)
    requires Plain(m, lib, sym) && sym.value != 0 && lib.strtab + lib.strsz < TWO64
    ensures NameAt(m, lib, sym.name) == Chars(CStringAt(m, lib.strtab + sym.name)) != ""
    ensures sym.name < lib.strsz
  {
    hide CStringAt, BufferReadable, Chars, NameAt;
    NameIsCStringIff(m, lib, sym.name);
  }

  /** What the two loaders make of one symbol. */
  lemma EntryAlike(m: Mem, mh: Mem, lib: Lib, symtab: U64, strtab: U64, hostBase: U64, span: nat, d: int, count: nat,
                   i: nat)
    requires TablesTwin(m, mh, lib, symtab, strtab, hostBase, span, d) && SymbolsPlain(m, lib, span, count)
    requires i < count && ScanEntry(m, lib, i) != Stop
    ensures var s := SymbolHere(mh, symtab, strtab, i);
            if s.value == 0 then ScanEntry(m, lib, i) == Skip
            else
              && ScanEntry(m, lib, i).Define? && ScanEntry(m, lib, i).name == s.name
              && Wrap(hostBase + s.value) == Wrap(ScanEntry(m, lib, i).addr + d)
  {
    hide DecodeSym, NameAt, NameAtHost, Plain, SameImage, Peek, Read;
    var a := lib.symtab + SYM_SIZE * i;
    assert SYM_SIZE * i + SYM_SIZE <= SYM_SIZE * count;
    PeekSame(m, mh, lib.base, span, d, a, SYM_SIZE);
    assert symtab + SYM_SIZE * i == a + d;
    assert PlainAt(m, lib, i);
    var sym := SymbolAtHost(mh, symtab, i);
    if sym.value != 0 {
      NameAlike(m, mh, lib, symtab, strtab, hostBase, span, d, sym);
      PlainInTable(m, lib, sym);
      WrapShift(lib.base + (sym.value - lib.minVaddr), d);
    }
  }

  lemma PlainInTable(m: Mem, lib: Lib, sym: Sym)
    requires Plain(m, lib, sym) && sym.value != 0
    ensures sym.name < lib.strsz
  {
  }

  /** Main result: when the symbols the hash section counts are plain and the
      scan finds no further definition behind them, the scan and the linear pass
      end with the same names, each at its own place. */
  lemma {:induction false} ScanIsLinear(m: Mem, mh: Mem, lib: Lib, symtab: U64, strtab: U64, hostBase: U64, span: nat,
                                        d: int, count: nat, n: nat, i: nat, acc: map<string, U64>,
                                        acc2: map<string, U64>)
    requires TablesTwin(m, mh, lib, symtab, strtab, hostBase, span, d) && SymbolsPlain(m, lib, span, count)
    requires StopsAt(m, lib, i, n) && count <= n && NoneAfter(m, lib, count, n) && SymbolsMoved(acc, acc2, d)
    ensures SymbolsMoved(ScanSymbols(m, lib, i, acc),
                         AddRange(acc2, hostBase, SymbolsIn(mh, symtab, strtab, count), i, count), d)
    decreases n - i
  {
    hide TablesTwin, SymbolsPlain, ScanEntry, SymbolHere, SymbolsMoved, Wrap;
    if i < n {
      ReadableBelowTop(m, lib, i);
      var next, next2 := acc, acc2;
      if i < count {
        EntryAlike(m, mh, lib, symtab, strtab, hostBase, span, d, count, i);
        var s := SymbolHere(mh, symtab, strtab, i);
        next2 := AddExport(acc2, hostBase, s);
        if s.value != 0 {
          var e := ScanEntry(m, lib, i);
          AddMoved(acc, acc2, d, e.name, e.addr, Wrap(hostBase + s.value));
          next := acc[e.name := e.addr];
        }
      }
      ScanIsLinear(m, mh, lib, symtab, strtab, hostBase, span, d, count, n, i + 1, next, next2);
    }
  }
}
