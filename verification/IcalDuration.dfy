/** Reading a duration in place: the scanner writes terminators into the node's own value. */
module IcalDuration {
  import opened Octets
  import opened IcalLines
  import opened IcalPrint
  import opened IcalModel

  /** The buffer `v` after the scanner has reached `i`, having first cut the string `s` at `cut`. */
  ghost predicate Scanned(v: bytes, s: bytes, i: nat, cut: Option<nat>) {
    && |s| < |v| && i <= |s| && NUL !in s
    && v[i..|s|] == s[i..] && v[|s|] == NUL
    && (if cut.None? then v[..i] == s[..i]
        else cut.value < i && v[..cut.value] == s[..cut.value] && v[cut.value] == NUL)
  }

  lemma ScannedValue(v: bytes, s: bytes, i: nat, cut: Option<nat>)
    requires Scanned(v, s, i, cut)
    ensures NUL in v && CStr(v) == if cut.Some? then s[..cut.value] else s
  {
    var n := if cut.Some? then cut.value else |s|;
    assert v[n] == NUL;
    if cut.None? {
      assert v[..n] == v[..i] + v[i..n];
      assert s == s[..i] + s[i..];
    }
    assert forall c :: c in s[..n] ==> c in s;
    assert s[..|s|] == s;
    CStrOf(v, n);
  }

  lemma ScannedAt(v: bytes, s: bytes, i: nat, cut: Option<nat>, k: nat)
    requires Scanned(v, s, i, cut) && i <= k <= |s|
    ensures v[k] == if k < |s| then s[k] else NUL
    ensures v[k] == NUL <==> k == |s|
  {
    if k < |s| {
      assert v[k] == v[i..|s|][k - i] == s[i..][k - i];
    }
  }

  /** Passing over octets, and writing a terminator over the unit at `j`. */
  lemma ScannedNext(v: bytes, s: bytes, i: nat, cut: Option<nat>, j: nat)
    requires Scanned(v, s, i, cut) && i <= j <= |s|
    ensures Scanned(v, s, j, cut)
    ensures j < |s| ==> Scanned(v[j := NUL], s, j + 1, if cut.Some? then cut else Some(j))
    ensures j < |s| ==> v[j := NUL][i..j] == s[i..j] && CStr(v[j := NUL][i..]) == s[i..j]
  {
    var w := v[i..|s|];
    assert v[j..|s|] == w[j - i..] && s[j..] == s[i..][j - i..];
    if cut.None? {
      assert v[..j] == v[..i] + w[..j - i] && s[..j] == s[..i] + s[i..][..j - i];
    }
    if j < |s| {
      var u := v[j := NUL];
      assert u[j + 1..|s|] == w[j + 1 - i..] && s[j + 1..] == s[i..][j + 1 - i..];
      assert u[..j] == v[..j];
      if cut.Some? {
        assert u[..cut.value] == v[..cut.value];
      }
      assert u[i..j] == w[..j - i] == s[i..][..j - i] == s[i..j];
      assert u[i..][..j - i] == u[i..j];
      assert forall c :: c in s[i..j] ==> c in s;
      CStrOf(u[i..], j - i);
    }
  }

  lemma SkipDigitsStep(s: bytes, i: nat)
    requires i <= |s|
    ensures SkipDigits(s, i) == if i < |s| && IsDigit(s[i]) then SkipDigits(s, i + 1) else i
  {
  }

  lemma DurUnitsStep(s: bytes, i: nat, d: Dur, cut: Option<nat>)
    requires i <= |s| && (cut.Some? ==> cut.value < |s|)
    ensures i == |s| ==> DurUnits(s, i, d, cut) == DurScan(true, d, cut)
    ensures i < |s| && s[i] == 84 ==>
              DurUnits(s, i, d, cut) == if i + 1 == |s| then DurScan(false, d, cut) else DurUnits(s, i + 1, d, cut)
    ensures i < |s| && s[i] != 84 && SkipDigits(s, i) == |s| ==> DurUnits(s, i, d, cut) == DurScan(true, d, cut)
    ensures i < |s| && s[i] != 84 && SkipDigits(s, i) < |s| ==>
              var j := SkipDigits(s, i);
              var a := Ulong(s[i..j]);
              var d' := SetUnit(d, s[j], if a.Some? then a.value else 0);
              var cut' := if cut.Some? then cut else Some(j);
              DurUnits(s, i, d, cut) == if d'.Some? && a.Some? then DurUnits(s, j + 1, d'.value, cut')
                                        else DurScan(j + 1 == |s|, if d'.Some? then d'.value else d, cut')
  {
  }

  /** Pass over digits. */
  method PassDigits(v: bytes, start: nat, ghost s: bytes, ghost cut: Option<nat>) returns (cp: nat)
    requires Scanned(v, s, start, cut)
    ensures cp == SkipDigits(s, start) && cp < |v| && v[cp] == if cp < |s| then s[cp] else NUL
  {
    hide SkipDigits, Scanned;
    cp := start;
    ScannedBounds(v, s, start, cut);
    ScannedAt(v, s, start, cut, cp);
    while IsDigit(v[cp])
      invariant start <= cp <= |s| < |v| && v[cp] == if cp < |s| then s[cp] else NUL
      invariant SkipDigits(s, cp) == SkipDigits(s, start)
      decreases |s| - cp
    {
      SkipDigitsStep(s, cp);
      cp := cp + 1;
      ScannedAt(v, s, start, cut, cp);
    }
    SkipDigitsStep(s, cp);
  }

  lemma ScannedBounds(v: bytes, s: bytes, i: nat, cut: Option<nat>)
    requires Scanned(v, s, i, cut)
    ensures i <= |s| < |v| && (cut.Some? ==> cut.value < i)
  {
  }

  /** Before the first unit: the sign, and where the units start. */
  lemma ScannedStart(v: bytes, s: bytes)
    requires IsCString(v, s) && s != []
    ensures Scanned(v, s, DurStart(s), None)
    ensures v[0] == s[0] && v[1] == (if 1 < |s| then s[1] else NUL)
    ensures v[DurStart(s)] == NUL <==> DurStart(s) == |s|
  {
    var i := DurStart(s);
    assert v[i..|s|] == v[..|s|][i..] && v[..i] == v[..|s|][..i];
    assert forall k :: 0 <= k < |s| ==> v[k] == v[..|s|][k];
  }

  /** Read the value of `np` as a duration. */
  method ReadDuration(np: IcalNode) returns (ok: bool, dur: Dur)
    requires np.Terminated()
    modifies np`val
    ensures np.Terminated()
    ensures ok == Duration(old(np.Value().val)).ok
    ensures ok ==> dur == Duration(old(np.Value().val)).dur
    ensures ok ==> CStr(np.val) == AfterDuration(old(np.Value().val))
  {
    hide DurUnits, SkipDigits, CStr, SetUnit, Ulong, Scanned;
    ghost var s := CStr(np.val);
    TerminatedString(np.val);
    dur := NO_DUR;
    if np.val[0] != 80 {
      return false, dur;
    }
    ScannedStart(np.val, s);
    var cp := 1;
    dur := dur.(sign := 1);
    if np.val[cp] == 45 {
      dur := dur.(sign := -1);
      cp := cp + 1;
    } else if np.val[cp] == 43 {
      cp := cp + 1;
    }
    if np.val[cp] == NUL {
      return false, dur.(sign := 0);
    }
    ok, dur := ReadUnits(np, cp, dur, s);
  }

  /** One amount and its unit; `more` says that scanning goes on. */
  method ReadUnit(np: IcalNode, start: nat, dur0: Dur, ghost s: bytes, ghost cut0: Option<nat>)
    returns (cp: nat, dur: Dur, more: bool, ghost cut: Option<nat>)
    requires Scanned(np.val, s, start, cut0) && start < |s| && s[start] != 84
    modifies np`val
    ensures Scanned(np.val, s, cp, cut) && start < cp <= |s| < |np.val| && (cut.Some? ==> cut.value < |s|)
    ensures np.val[cp] == if cp < |s| then s[cp] else NUL
    ensures cut0.Some? ==> cut0.value < |s|
    ensures var r := DurUnits(s, start, dur0, cut0);
            if more then DurUnits(s, cp, dur, cut) == r else DurScan(cp == |s|, dur, cut) == r
  {
    hide DurUnits, SkipDigits, CStr, SetUnit, Ulong, Scanned;
    cut, dur, more := cut0, dur0, false;
    ScannedBounds(np.val, s, start, cut);
    DurUnitsStep(s, start, dur, cut);
    cp := PassDigits(np.val, start, s, cut);
    ScannedAt(np.val, s, start, cut, cp);
    ScannedNext(np.val, s, start, cut, cp);
    if np.val[cp] == NUL {
      return;
    }
    // Terminate the digits over the unit.
    var unit := np.val[cp];
    np.val := np.val[cp := NUL];
    cp := cp + 1;
    cut := if cut.Some? then cut else Some(cp - 1);
    ScannedBounds(np.val, s, cp, cut);
    ScannedAt(np.val, s, cp, cut, cp);
    var amount := Ulong(CStr(np.val[start..]));
    var stored := SetUnit(dur, unit, if amount.Some? then amount.value else 0);
    dur := if stored.Some? then stored.value else dur;
    more := amount.Some? && stored.Some?;
  }

  /** The units, from `cp0` on. */
  method ReadUnits(np: IcalNode, cp0: nat, dur0: Dur, ghost s: bytes) returns (ok: bool, dur: Dur)
    requires np.Terminated() && Scanned(np.val, s, cp0, None)
    modifies np`val
    ensures np.Terminated()
    ensures var r := DurUnits(s, cp0, dur0, None);
            && ok == r.ok
            && dur == r.dur
            && CStr(np.val) == if r.cut.Some? then s[..r.cut.value] else s
  {
    hide DurUnits, CStr, Scanned;
    ghost var cut: Option<nat> := None;
    ScannedBounds(np.val, s, cp0, cut);
    ghost var r := DurUnits(s, cp0, dur0, cut);
    var cp := cp0;
    dur := dur0;
    ScannedAt(np.val, s, cp, cut, cp);
    while np.val[cp] != NUL
      invariant cp <= |s| < |np.val| && (cut.Some? ==> cut.value < |s|)
      invariant Scanned(np.val, s, cp, cut) && np.val[cp] == (if cp < |s| then s[cp] else NUL)
      invariant DurUnits(s, cp, dur, cut) == r
      decreases |s| - cp
    {
      ScannedAt(np.val, s, cp, cut, cp);
      if np.val[cp] == 84 {
        DurUnitsStep(s, cp, dur, cut);
        ScannedAt(np.val, s, cp, cut, cp + 1);
        if np.val[cp + 1] == NUL {
          break;
        }
        ScannedNext(np.val, s, cp, cut, cp + 1);
        cp := cp + 1;
        continue;
      }
      var more;
      cp, dur, more, cut := ReadUnit(np, cp, dur, s, cut);
      ScannedAt(np.val, s, cp, cut, cp);
      if !more {
        break;
      }
    }
    ScannedAt(np.val, s, cp, cut, cp);
    if cp == |s| {
      DurUnitsStep(s, cp, dur, cut);
    }
    ok := np.val[cp] == NUL;
    ScannedValue(np.val, s, cp, cut);
  }
}
