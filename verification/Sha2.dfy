/**
 * The two transforms of SHA-256 and SHA-512, rolled and unrolled, over a circular window of
 * sixteen words; both are the transform of FIPS 180-4 with its full message schedule.
 */
module Sha2 {
  import opened Octets
  import opened Word32
  import opened Fips180

  /** The window after the words up to `t`: the last sixteen words of the schedule, each in its place. */
  ghost predicate Window(v: Variant, W: seq<nat>, m: seq<nat>, t: nat)
    requires Ok(v) && |m| == 16
  {
    |W| == 16 && forall i: nat :: i < t <= i + 16 ==> W[i % 16] == Sched(v, m, i)
  }

  /** One word more, over the oldest one. */
  lemma WindowPut(v: Variant, W: seq<nat>, m: seq<nat>, t: nat)
    requires Ok(v) && |m| == 16 && Window(v, W, m, t)
    ensures Window(v, W[t % 16 := Sched(v, m, t)], m, t + 1)
  {
    hide Sched;
  }

  /** The next word of the schedule, from the window. */
  lemma WindowNext(v: Variant, W: seq<nat>, m: seq<nat>, t: nat)
    requires Ok(v) && |m| == 16 && Window(v, W, m, t) && t >= 16
    ensures Sched(v, m, t) == Sum(v, W[t % 16] + (Small(v, v.sigma1, W[(t + 14) % 16]) + W[(t + 9) % 16]
                                                  + Small(v, v.sigma0, W[(t + 1) % 16])))
  {
    hide Small, Sum, Sched;
    SchedStep(v, m, t);
    Wraps(t);
    WindowAt(v, W, m, t, t - 2);
    WindowAt(v, W, m, t, t - 7);
    WindowAt(v, W, m, t, t - 15);
    WindowAt(v, W, m, t, t - 16);
  }

  lemma WindowAt(v: Variant, W: seq<nat>, m: seq<nat>, t: nat, i: nat)
    requires Ok(v) && |m| == 16 && Window(v, W, m, t) && i < t <= i + 16
    ensures W[i % 16] == Sched(v, m, i)
  {
    hide Sched;
  }

  lemma SchedStep(v: Variant, m: seq<nat>, t: nat)
    requires Ok(v) && |m| == 16 && t >= 16
    ensures Sched(v, m, t) == Sum(v, Small(v, v.sigma1, Sched(v, m, t - 2)) + Sched(v, m, t - 7)
                                     + Small(v, v.sigma0, Sched(v, m, t - 15)) + Sched(v, m, t - 16))
  {
    hide Small, Sum;
  }

  lemma Wraps(t: nat)
    requires t >= 16
    ensures (t + 14) % 16 == (t - 2) % 16 && (t + 9) % 16 == (t - 7) % 16
    ensures (t + 1) % 16 == (t - 15) % 16 && t % 16 == (t - 16) % 16
  {
  }

  /** Four or eight octets joined, high-order first, by shifts from the last one up. */
  function LoadBe(w: nat, cp: bytes, k: nat): (r: nat)
    requires k <= |cp| && 8 * k <= w
    ensures r == BeWord(cp[|cp| - k..])
  {
    if k == 0 then 0 else
      LoadOne(w, cp, k);
      Bits(OR, w, LoadBe(w, cp, k - 1), ShiftUp(cp[|cp| - k] as nat, 8 * (k - 1)))
  }

  lemma LoadOne(w: nat, cp: bytes, k: nat)
    requires 1 <= k <= |cp| && 8 * k <= w
    ensures Bits(OR, w, BeWord(cp[|cp| - k + 1..]), ShiftUp(cp[|cp| - k] as nat, 8 * (k - 1))) == BeWord(cp[|cp| - k..])
  {
    hide Bits, Pow2, BeWord, ShiftUp;
    var c, s := cp[|cp| - k] as nat, cp[|cp| - k + 1..];
    assert cp[|cp| - k..] == [cp[|cp| - k]] + s;
    BeFront(cp[|cp| - k], s);
    ShiftUpIs(c, 8 * (k - 1));
    Pow2Is();
    Pow2Mono(8, w - 8 * (k - 1));
    OrDisjoint(w, 8 * (k - 1), c, BeWord(s));
    BitsCommute(OR, w, BeWord(s), c * Pow2(8 * (k - 1)));
  }

  lemma {:induction false} ShiftUpIs(x: nat, n: nat)
    ensures ShiftUp(x, n) == x * Pow2(n)
  {
    if n > 0 {
      ShiftUpIs(x, n - 1);
      Doubled(x, Pow2(n - 1));
    }
  }

  lemma Pow2Mono(m: nat, n: nat)
    requires m <= n
    ensures Pow2(m) <= Pow2(n)
  {
  }

  /** A first octet counts most. */
  lemma {:induction false} BeFront(c: byte, s: bytes)
    ensures BeWord(s) < Pow2(8 * |s|)
    ensures BeWord([c] + s) == c as nat * Pow2(8 * |s|) + BeWord(s)
  {
    if s == [] {
      assert [c] + s == [c] && [c][..0] == [];
    } else {
      hide Pow2;
      var n := |s| - 1;
      BeFront(c, s[..n]);
      assert ([c] + s)[..|s|] == [c] + s[..n];
      Pow2Is();
      Pow2Add(8, 8 * n);
      Scaled(c as nat, Pow2(8 * n));
    }
  }

  lemma Scaled(c: nat, p: nat)
    ensures c * (0x100 * p) == 0x100 * (c * p)
  {
  }

  // ------------------------------------------------------------------
  // The rolled transform.

  ghost function RegsOf(state: seq<nat>): Regs
    requires |state| == 8
  {
    Regs(state[0], state[1], state[2], state[3], state[4], state[5], state[6], state[7])
  }

  /** Word `j` of the block, from where the data pointer is. */
  function LoadNext(v: Variant, data: bytes, j: nat): (r: nat)
    requires |data| == 16 * (v.width / 8) && j < 16
    ensures r == WordAt(v, data, j)
  {
    MulUp(j, v.width / 8, 16);
    var cp := data[j * (v.width / 8)..j * (v.width / 8) + v.width / 8];
    assert cp[0..] == cp;
    LoadBe(v.width, cp, v.width / 8)
  }

  /** Put word `j` of the block or of the expansion into its place; it is returned too. */
  method Load(v: Variant, W: array<nat>, data: bytes, j: nat, ghost m: seq<nat>) returns (w: nat)
    requires Ok(v) && W.Length == 16 && |data| == 16 * (v.width / 8) && m == Words(v, data)
    requires j < 16 && Window(v, W[..], m, j)
    modifies W
    ensures Window(v, W[..], m, j + 1) && w == Sched(v, m, j)
  {
    hide Window, WordAt, BeWord, LoadBe;
    WindowPut(v, W[..], m, j);
    ghost var u := W[..];
    W[j] := LoadNext(v, data, j);
    assert W[..] == u[j % 16 := Sched(v, m, j)];
    w := W[j];
  }

  method Expand(v: Variant, W: array<nat>, j: nat, ghost m: seq<nat>) returns (w: nat)
    requires Ok(v) && W.Length == 16 && |m| == 16 && j >= 16 && Window(v, W[..], m, j)
    modifies W
    ensures Window(v, W[..], m, j + 1) && w == Sched(v, m, j)
  {
    hide Window, Sum, Small, Sched;
    WindowPut(v, W[..], m, j);
    WindowNext(v, W[..], m, j);
    ghost var u := W[..];
    var s0 := Small(v, v.sigma0, W[(j + 1) % 16]);
    var s1 := Small(v, v.sigma1, W[(j + 14) % 16]);
    W[j % 16] := Sum(v, W[j % 16] + (s1 + W[(j + 9) % 16] + s0));
    assert W[..] == u[j % 16 := Sched(v, m, j)];
    w := W[j % 16];
  }

  lemma AfterStep(v: Variant, r: Regs, m: seq<nat>, t: nat)
    requires Ok(v) && |m| == 16
    ensures After(v, r, m, 0) == r
    ensures t < v.rounds ==> After(v, r, m, t + 1) == Round(v, After(v, r, m, t), v.k(t), Sched(v, m, t))
  {
    hide Round, Sched;
  }

  method TransformRolled(v: Variant, state: array<nat>, data: bytes)
    requires Ok(v) && state.Length == 8 && |data| == 16 * (v.width / 8)
    modifies state
    ensures RegsOf(state[..]) == Transform(v, old(RegsOf(state[..])), Words(v, data))
  {
    hide Window, Big, Ch, Maj, Sum, After, Sched, WordAt;
    ghost var m, r0 := Words(v, data), RegsOf(state[..]);
    var a: nat, b: nat, c: nat, d: nat, e: nat, f: nat, g: nat, h: nat :=
      state[0], state[1], state[2], state[3], state[4], state[5], state[6], state[7];
    var W := new nat[16];
    WindowNone(v, W[..], m);
    AfterStep(v, r0, m, 0);
    var j := 0;
    while j < 16
      modifies W
      invariant j <= 16 && Window(v, W[..], m, j)
      invariant After(v, r0, m, j) == Regs(a, b, c, d, e, f, g, h)
    {
      AfterStep(v, r0, m, j);
      var w := Load(v, W, data, j, m);
      var t1 := Sum(v, h + Big(v, v.Sigma1, e) + Ch(v, e, f, g) + v.k(j) + w);
      var t2 := Sum(v, Big(v, v.Sigma0, a) + Maj(v, a, b, c));
      h, g, f, e, d, c, b, a := g, f, e, Sum(v, d + t1), c, b, a, Sum(v, t1 + t2);
      j := j + 1;
    }
    while j < v.rounds
      modifies W
      invariant 16 <= j <= v.rounds && Window(v, W[..], m, j)
      invariant After(v, r0, m, j) == Regs(a, b, c, d, e, f, g, h)
    {
      AfterStep(v, r0, m, j);
      var w := Expand(v, W, j, m);
      var t1 := Sum(v, h + Big(v, v.Sigma1, e) + Ch(v, e, f, g) + v.k(j) + w);
      var t2 := Sum(v, Big(v, v.Sigma0, a) + Maj(v, a, b, c));
      h, g, f, e, d, c, b, a := g, f, e, Sum(v, d + t1), c, b, a, Sum(v, t1 + t2);
      j := j + 1;
    }
    AddTo(v, state, a, b, c, d, e, f, g, h);
  }

  lemma WindowNone(v: Variant, W: seq<nat>, m: seq<nat>)
    requires Ok(v) && |m| == |W| == 16
    ensures Window(v, W, m, 0)
  {
  }

  /** Add the working variables to the state. */
  method AddTo(v: Variant, state: array<nat>, a: nat, b: nat, c: nat, d: nat, e: nat, f: nat, g: nat, h: nat)
    requires state.Length == 8
    modifies state
    ensures RegsOf(state[..]) == AddRegs(v, old(RegsOf(state[..])), Regs(a, b, c, d, e, f, g, h))
  {
    hide Sum;
    state[0] := Sum(v, state[0] + a);
    state[1] := Sum(v, state[1] + b);
    state[2] := Sum(v, state[2] + c);
    state[3] := Sum(v, state[3] + d);
    state[4] := Sum(v, state[4] + e);
    state[5] := Sum(v, state[5] + f);
    state[6] := Sum(v, state[6] + g);
    state[7] := Sum(v, state[7] + h);
  }

  // ------------------------------------------------------------------
  // The unrolled transform: the registers keep their places and are renamed instead.

  lemma SumPart(v: Variant, x: int, y: int)
    ensures Sum(v, Sum(v, x) + y) == Sum(v, x + y)
  {
    hide Pow2;
    var p := Pow2(v.width);
    var z := x % p + y;
    ModIs(x + y, p, x / p + z / p, z % p);
  }

  /** One step: only two registers change. */
  method Step(v: Variant, j: nat, w: nat, a: nat, b: nat, c: nat, d: nat, e: nat, f: nat, g: nat, h: nat)
    returns (d': nat, h': nat)
    requires Ok(v) && j < v.rounds
    ensures Round(v, Regs(a, b, c, d, e, f, g, h), v.k(j), w) == Regs(h', a, b, c, d', e, f, g)
  {
    hide Big, Ch, Maj, Sum;
    var t1 := Sum(v, h + Big(v, v.Sigma1, e) + Ch(v, e, f, g) + v.k(j) + w);
    d' := Sum(v, d + t1);
    h' := Sum(v, t1 + Big(v, v.Sigma0, a) + Maj(v, a, b, c));
    SumPart(v, Big(v, v.Sigma0, a) + Maj(v, a, b, c), t1);
  }

  method Round0To15(v: Variant, W: array<nat>, data: bytes, j: nat, a: nat, b: nat, c: nat, d: nat,
                    e: nat, f: nat, g: nat, h: nat, ghost m: seq<nat>, ghost r0: Regs)
    returns (d': nat, h': nat)
    requires Ok(v) && W.Length == 16 && |data| == 16 * (v.width / 8) && m == Words(v, data)
    requires j < 16 && Window(v, W[..], m, j) && After(v, r0, m, j) == Regs(a, b, c, d, e, f, g, h)
    modifies W
    ensures Window(v, W[..], m, j + 1) && After(v, r0, m, j + 1) == Regs(h', a, b, c, d', e, f, g)
  {
    hide Window, Round, After, Sched;
    AfterStep(v, r0, m, j);
    var w := Load(v, W, data, j, m);
    d', h' := Step(v, j, w, a, b, c, d, e, f, g, h);
  }

  method RoundLater(v: Variant, W: array<nat>, j: nat, a: nat, b: nat, c: nat, d: nat,
                    e: nat, f: nat, g: nat, h: nat, ghost m: seq<nat>, ghost r0: Regs)
    returns (d': nat, h': nat)
    requires Ok(v) && W.Length == 16 && |m| == 16
    requires 16 <= j < v.rounds && Window(v, W[..], m, j) && After(v, r0, m, j) == Regs(a, b, c, d, e, f, g, h)
    modifies W
    ensures Window(v, W[..], m, j + 1) && After(v, r0, m, j + 1) == Regs(h', a, b, c, d', e, f, g)
  {
    hide Window, Round, After, Sched;
    AfterStep(v, r0, m, j);
    var w := Expand(v, W, j, m);
    d', h' := Step(v, j, w, a, b, c, d, e, f, g, h);
  }

  /** Eight rounds of the first sixteen; the registers are renamed, not moved. */
  method Eight0To15(v: Variant, W: array<nat>, data: bytes, j: nat, a: nat, b: nat, c: nat, d: nat,
                    e: nat, f: nat, g: nat, h: nat, ghost m: seq<nat>, ghost r0: Regs)
    returns (a': nat, b': nat, c': nat, d': nat, e': nat, f': nat, g': nat, h': nat)
    requires Ok(v) && W.Length == 16 && |data| == 16 * (v.width / 8) && m == Words(v, data)
    requires j <= 8 && Window(v, W[..], m, j) && After(v, r0, m, j) == Regs(a, b, c, d, e, f, g, h)
    modifies W
    ensures Window(v, W[..], m, j + 8) && After(v, r0, m, j + 8) == Regs(a', b', c', d', e', f', g', h')
  {
    hide Window, Round, After, Sched, WordAt, Pow2, Words;
    a', b', c', d', e', f', g', h' := a, b, c, d, e, f, g, h;
    d', h' := Round0To15(v, W, data, j, a', b', c', d', e', f', g', h', m, r0);
    c', g' := Round0To15(v, W, data, j + 1, h', a', b', c', d', e', f', g', m, r0);
    b', f' := Round0To15(v, W, data, j + 2, g', h', a', b', c', d', e', f', m, r0);
    a', e' := Round0To15(v, W, data, j + 3, f', g', h', a', b', c', d', e', m, r0);
    h', d' := Round0To15(v, W, data, j + 4, e', f', g', h', a', b', c', d', m, r0);
    g', c' := Round0To15(v, W, data, j + 5, d', e', f', g', h', a', b', c', m, r0);
    f', b' := Round0To15(v, W, data, j + 6, c', d', e', f', g', h', a', b', m, r0);
    e', a' := Round0To15(v, W, data, j + 7, b', c', d', e', f', g', h', a', m, r0);
  }

  /** Eight later rounds. */
  method EightLater(v: Variant, W: array<nat>, j: nat, a: nat, b: nat, c: nat, d: nat,
                    e: nat, f: nat, g: nat, h: nat, ghost m: seq<nat>, ghost r0: Regs)
    returns (a': nat, b': nat, c': nat, d': nat, e': nat, f': nat, g': nat, h': nat)
    requires Ok(v) && W.Length == 16 && |m| == 16
    requires 16 <= j <= v.rounds - 8 && Window(v, W[..], m, j) && After(v, r0, m, j) == Regs(a, b, c, d, e, f, g, h)
    modifies W
    ensures Window(v, W[..], m, j + 8) && After(v, r0, m, j + 8) == Regs(a', b', c', d', e', f', g', h')
  {
    hide Window, Round, After, Sched, WordAt, Pow2, Words;
    a', b', c', d', e', f', g', h' := a, b, c, d, e, f, g, h;
    d', h' := RoundLater(v, W, j, a', b', c', d', e', f', g', h', m, r0);
    c', g' := RoundLater(v, W, j + 1, h', a', b', c', d', e', f', g', m, r0);
    b', f' := RoundLater(v, W, j + 2, g', h', a', b', c', d', e', f', m, r0);
    a', e' := RoundLater(v, W, j + 3, f', g', h', a', b', c', d', e', m, r0);
    h', d' := RoundLater(v, W, j + 4, e', f', g', h', a', b', c', d', m, r0);
    g', c' := RoundLater(v, W, j + 5, d', e', f', g', h', a', b', c', m, r0);
    f', b' := RoundLater(v, W, j + 6, c', d', e', f', g', h', a', b', m, r0);
    e', a' := RoundLater(v, W, j + 7, b', c', d', e', f', g', h', a', m, r0);
  }

  method TransformUnrolled(v: Variant, state: array<nat>, data: bytes)
    requires Ok(v) && state.Length == 8 && |data| == 16 * (v.width / 8)
    modifies state
    ensures RegsOf(state[..]) == Transform(v, old(RegsOf(state[..])), Words(v, data))
  {
    hide Window, Round, After, Sched, WordAt, AddRegs, Pow2, Bits;
    ghost var m, r0 := Words(v, data), RegsOf(state[..]);
    var a: nat, b: nat, c: nat, d: nat, e: nat, f: nat, g: nat, h: nat :=
      state[0], state[1], state[2], state[3], state[4], state[5], state[6], state[7];
    var W := new nat[16];
    WindowNone(v, W[..], m);
    AfterStep(v, r0, m, 0);
    var j := 0;
    while j < 16
      modifies W
      invariant j <= 16 && j % 8 == 0 && Window(v, W[..], m, j)
      invariant After(v, r0, m, j) == Regs(a, b, c, d, e, f, g, h)
    {
      a, b, c, d, e, f, g, h := Eight0To15(v, W, data, j, a, b, c, d, e, f, g, h, m, r0);
      j := j + 8;
    }
    while j < v.rounds
      modifies W
      invariant 16 <= j <= v.rounds && j % 8 == 0 && Window(v, W[..], m, j)
      invariant After(v, r0, m, j) == Regs(a, b, c, d, e, f, g, h)
    {
      a, b, c, d, e, f, g, h := EightLater(v, W, j, a, b, c, d, e, f, g, h, m, r0);
      j := j + 8;
    }
    AddTo(v, state, a, b, c, d, e, f, g, h);
  }
}
