/** Symbol names: the NDK renaming and the data-symbol test of the resolver. */
module SymbolNames {
  import opened Words

  predicate OccursAt(s: string, p: string, i: nat) {
    i + |p| <= |s| && s[i..i + |p|] == p
  }

  predicate Contains(s: string, p: string) {
    exists i: nat | i <= |s| :: OccursAt(s, p, i)
  }

  /** `std::string::find`: the first occurrence at or after `from`. */
  function Find(s: string, p: string, from: nat): (r: Option<nat>)
    requires from <= |s| + 1
    ensures r.Some? ==>
              r.value >= from && OccursAt(s, p, r.value) && forall j | from <= j < r.value :: !OccursAt(s, p, j)
    ensures r.None? ==> forall j | from <= j :: !OccursAt(s, p, j)
    decreases |s| + 1 - from
  {
    if from > |s| then None
    else if OccursAt(s, p, from) then Some(from)
    else Find(s, p, from + 1)
  }

  const NDK_PREFIXED := "6__ndk1"
  const NDK := "__ndk1"
  const STD_PREFIXED := "3__1"
  const STD := "__1"

  /** The name under which a C++ runtime other than the NDK's exports a symbol. */
  function NdkName(s: string): string {
    match Find(s, NDK_PREFIXED, 0)
    case Some(i) => s[..i] + STD_PREFIXED + s[i + 7..]
    case None =>
      match Find(s, NDK, 0)
      case Some(i) => s[..i] + STD + s[i + 6..]
      case None => s
  }

  /** The renaming leaves exactly the names without "__ndk1" alone. */
  lemma NdkNameFixedIff(s: string)
    ensures NdkName(s) == s <==> !Contains(s, NDK)
  {
    var r := Find(s, NDK_PREFIXED, 0);
    if r.Some? {
      var i := r.value;
      assert s[i..i + 7] == NDK_PREFIXED;
      assert s[i + 1..i + 7] == NDK_PREFIXED[1..] == NDK;
      assert OccursAt(s, NDK, i + 1);
      assert |NdkName(s)| == |s| - 3;
    } else {
      var q := Find(s, NDK, 0);
      if q.Some? {
        assert |NdkName(s)| == |s| - 3;
      }
    }
  }

  /** The first occurrence of `p` in `s` has `before` in front of it and `rest` behind it. */
  ghost predicate SplitsAt(s: string, before: string, p: string, rest: string) {
    s == before + p + rest && forall i: nat | i < |before| :: !OccursAt(s, p, i)
  }

  lemma FirstIsFound(s: string, before: string, p: string, rest: string)
    requires SplitsAt(s, before, p, rest)
    ensures Find(s, p, 0) == Some(|before|) && s[..|before|] == before && s[|before| + |p|..] == rest
  {
    assert OccursAt(s, p, |before|);
  }

  /** Every name: the first "6__ndk1" becomes "3__1"; in a name without it the
      first "__ndk1" becomes "__1"; what stands around it stays. */
  lemma NdkNameIs(s: string, before: string, rest: string)
    ensures SplitsAt(s, before, "6__ndk1", rest) ==> NdkName(s) == before + "3__1" + rest
    ensures !Contains(s, "6__ndk1") && SplitsAt(s, before, "__ndk1", rest) ==> NdkName(s) == before + "__1" + rest
    ensures !Contains(s, "__ndk1") ==> NdkName(s) == s
  {
    if SplitsAt(s, before, "6__ndk1", rest) {
      FirstIsFound(s, before, "6__ndk1", rest);
    }
    if !Contains(s, "6__ndk1") && SplitsAt(s, before, "__ndk1", rest) {
      FirstIsFound(s, before, "__ndk1", rest);
    }
    NdkNameFixedIff(s);
  }

  /** A renaming worked out: "x6__ndk1" becomes "x3__1". */
  lemma RenamedX()
    ensures NdkName("x6__ndk1") == "x3__1"
  {
    var s := "x6__ndk1";
    assert s[1..8] == NDK_PREFIXED;
    assert s[0..7][0] == 'x' && NDK_PREFIXED[0] == '6';
    assert OccursAt(s, NDK_PREFIXED, 1) && !OccursAt(s, NDK_PREFIXED, 0);
    assert Find(s, NDK_PREFIXED, 0) == Some(1);
    assert s[..1] + STD_PREFIXED + s[8..] == "x3__1";
  }

  predicate HasPrefix(s: string, p: string) {
    |p| <= |s| && s[..|p|] == p
  }

  const DATA_PREFIXES := ["_ZTV", "_ZTI", "_ZTS", "kCF", "kAudio", "OBJC_"]
  const DATA_NAMES := ["__CFConstantStringClassReference", "__sF", "environ", "__stack_chk_guard", "__ctype_"]
  const STT_OBJECT := 1

  predicate IsData(symbolType: nat, name: string) {
    || symbolType == STT_OBJECT
    || (exists p | p in DATA_PREFIXES :: HasPrefix(name, p))
    || name in DATA_NAMES
  }
}
