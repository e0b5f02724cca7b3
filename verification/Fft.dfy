/** The fast Fourier transform of the mel spectrogram, over exact numbers. */
module Fft {
  import opened Arith

  datatype Complex = Complex(re: real, im: real)

  const ZERO := Complex(0.0, 0.0)

  function Add(a: Complex, b: Complex): Complex {
    Complex(a.re + b.re, a.im + b.im)
  }

  function Sub(a: Complex, b: Complex): Complex {
    Complex(a.re - b.re, a.im - b.im)
  }

  function Mul(a: Complex, b: Complex): Complex {
    Complex(a.re * b.re - a.im * b.im, a.re * b.im + a.im * b.re)
  }

  function Scale(x: real, a: Complex): Complex {
    Complex(x * a.re, x * a.im)
  }

  // ----- the table

  /** The sine and cosine of the angles that divide the circle evenly. */
  datatype Table = Table(cos: seq<real>, sin: seq<real>) {
    predicate Sized() {
      |cos| == |sin| > 0
    }

    function Size(): (n: nat) {
      |cos|
    }

    /** The root of unity for `j` steps; a transform turns clockwise. */
    function Root(j: nat): Complex
      requires Sized()
    {
      Complex(cos[j % Size()], -sin[j % Size()])
    }

    /** What trigonometry says of the entries: no turn, half a turn, and the sum of two angles. */
    ghost predicate Laws()
      requires Sized()
    {
      && Root(0) == Complex(1.0, 0.0)
      && (forall h: nat :: 2 * h == Size() ==> Root(h) == Complex(-1.0, 0.0))
      && (forall a: nat, b: nat :: a < Size() && b < Size() ==> Root((a + b) % Size()) == Mul(Root(a), Root(b)))
    }

    ghost predicate Valid() {
      Sized() && Laws()
    }
  }

  lemma ModAdd(a: nat, b: nat, n: nat)
    requires n > 0
    ensures (a + b) % n == ((a % n) + (b % n)) % n
  {
    var s := a % n + b % n;
    assert s == s / n * n + s % n;
    assert a + b == (a / n + b / n + s / n) * n + s % n by {
      assert a == a / n * n + a % n;
      assert b == b / n * n + b % n;
      assert (a / n + b / n + s / n) * n == a / n * n + b / n * n + s / n * n;
    }
    ModUnique(a + b, n, a / n + b / n + s / n, s % n);
  }

  /** Angles add, also past a full turn. */
  lemma RootAdd(t: Table, a: nat, b: nat)
    requires t.Valid()
    ensures t.Root(a + b) == Mul(t.Root(a), t.Root(b))
  {
    hide Mul;
    var n := t.Size();
    ModAdd(a, b, n);
    ModUnique(a % n, n, 0, a % n);
    ModUnique(b % n, n, 0, b % n);
    ModUnique((a + b) % n, n, 0, (a + b) % n);
    assert t.Root((a % n + b % n) % n) == Mul(t.Root(a % n), t.Root(b % n));
  }

  /** Full turns do not matter. */
  lemma RootTurns(t: Table, a: nat, m: nat)
    requires t.Valid()
    ensures t.Root(a + m * t.Size()) == t.Root(a)
  {
    var n := t.Size();
    assert a == a / n * n + a % n;
    assert (a / n + m) * n == a / n * n + m * n;
    ModUnique(a + m * n, n, a / n + m, a % n);
  }

  lemma RootHalf(t: Table, a: nat, h: nat)
    requires t.Valid() && 2 * h == t.Size()
    ensures t.Root(a + h) == Sub(ZERO, t.Root(a))
  {
    RootAdd(t, a, h);
  }

  // ----- the transform

  /** How far round the circle term `m` of output `k` is. */
  function Turn(k: nat, m: nat, step: nat): nat {
    k * m * step
  }

  function Step(t: Table, n: nat): nat
    requires n > 0
  {
    t.Size() / n
  }

  /** The sum that defines the transform: the first `n` terms of output `k`. */
  function Sum(t: Table, x: seq<real>, k: nat, step: nat, n: nat): Complex
    requires t.Sized() && n <= |x|
  {
    if n == 0 then ZERO
    else Add(Sum(t, x, k, step, n - 1), Scale(x[n - 1], t.Root(Turn(k, n - 1, step))))
  }

  function Dft(t: Table, x: seq<real>, k: nat): Complex
    requires t.Sized() && |x| > 0
  {
    Sum(t, x, k, Step(t, |x|), |x|)
  }

  /** The first `n` numbers, each times the entry of `w` that its angle picks. */
  ghost function Weighted(w: seq<real>, x: seq<real>, k: nat, step: nat, n: nat): real
    requires |w| > 0 && n <= |x|
  {
    if n == 0 then 0.0 else Weighted(w, x, k, step, n - 1) + Product(x[n - 1], w[k * (n - 1) * step % |w|])
  }

  /** The transform is the sum with the cosines and, negated, with the sines of the multiples of the angle. */
  lemma DftIs(t: Table, x: seq<real>, k: nat)
    requires t.Sized() && |x| > 0
    ensures var step := |t.cos| / |x|;
            Dft(t, x, k) == Complex(Weighted(t.cos, x, k, step, |x|), -Weighted(t.sin, x, k, step, |x|))
  {
    SumIs(t, x, k, Step(t, |x|), |x|);
  }

  lemma {:induction false} SumIs(t: Table, x: seq<real>, k: nat, step: nat, n: nat)
    requires t.Sized() && n <= |x|
    ensures Sum(t, x, k, step, n) == Complex(Weighted(t.cos, x, k, step, n), -Weighted(t.sin, x, k, step, n))
  {
    if n > 0 {
      hide Product, Turn;
      SumIs(t, x, k, step, n - 1);
      var j := Turn(k, n - 1, step);
      TurnIs(k, n - 1, step);
      ScaledIs(x[n - 1], t.cos[j % t.Size()], t.sin[j % t.Size()]);
    }
  }

  function Product(a: real, b: real): real {
    a * b
  }

  lemma TurnIs(k: nat, m: nat, step: nat)
    ensures Turn(k, m, step) == k * m * step
  {
  }

  lemma ScaledIs(a: real, c: real, s: real)
    ensures Scale(a, Complex(c, -s)) == Complex(Product(a, c), -Product(a, s))
  {
  }

  function Evens(x: seq<real>, h: nat): (r: seq<real>)
    requires 2 * h <= |x|
    ensures |r| == h
  {
    seq(h, i requires 0 <= i < h => x[2 * i])
  }

  function Odds(x: seq<real>, h: nat): (r: seq<real>)
    requires 2 * h <= |x|
    ensures |r| == h
  {
    seq(h, i requires 0 <= i < h => x[2 * i + 1])
  }

  // ----- laws

  lemma MulLinear(w: Complex, a: Complex, x: real, v: Complex)
    ensures Mul(w, Add(a, Scale(x, v))) == Add(Mul(w, a), Scale(x, Mul(w, v)))
  {
    Rearrange(w.re, a.re, v.re, w.im, a.im, v.im, x);
    Rearrange(w.re, a.im, v.im, -w.im, a.re, v.re, x);
  }

  lemma Rearrange(p: real, a: real, v: real, q: real, b: real, u: real, x: real)
    ensures p * (a + x * v) - q * (b + x * u) == (p * a - q * b) + x * (p * v - q * u)
  {
    assert p * (x * v) == x * (p * v);
    assert q * (x * u) == x * (q * u);
    assert x * (p * v - q * u) == x * (p * v) - x * (q * u);
  }

  lemma AddSwap(a: Complex, b: Complex, c: Complex, d: Complex)
    ensures Add(Add(Add(a, b), c), d) == Add(Add(a, c), Add(b, d))
  {
  }

  lemma TurnSplit(k: nat, m: nat, step: nat)
    ensures Turn(k, 2 * m, step) == Turn(k, m, 2 * step)
    ensures Turn(k, 2 * m + 1, step) == Turn(k, 1, step) + Turn(k, m, 2 * step)
  {
    var km := k * m;
    assert k * (2 * m) == 2 * km;
    assert k * (2 * m + 1) == 2 * km + k;
    assert 2 * km * step == km * (2 * step);
    assert (2 * km + k) * step == 2 * km * step + k * step;
  }

  lemma TurnPeriod(k: nat, h: nat, m: nat, step: nat, size: nat)
    requires h * step == size
    ensures Turn(k + h, m, step) == Turn(k, m, step) + m * size
  {
    assert (k + h) * m == k * m + h * m;
    assert (k * m + h * m) * step == k * m * step + h * m * step;
    assert h * m * step == m * (h * step);
  }

  lemma TurnOne(k: nat, step: nat, h: nat)
    ensures Turn(k, 1, step) == k * step && Turn(k + h, 1, step) == Turn(k, 1, step) + h * step
  {
    assert (k + h) * step == k * step + h * step;
  }

  /** The sum splits into its even and its odd terms. */
  lemma {:induction false} SplitSum(t: Table, x: seq<real>, h: nat, k: nat, step: nat, m: nat)
    requires t.Valid() && 2 * h <= |x| && m <= h
    ensures Sum(t, x, k, step, 2 * m) ==
            Add(Sum(t, Evens(x, h), k, 2 * step, m), Mul(t.Root(Turn(k, 1, step)), Sum(t, Odds(x, h), k, 2 * step, m)))
  {
    var w := t.Root(Turn(k, 1, step));
    if m == 0 {
      assert Mul(w, ZERO) == ZERO;
    } else {
      hide Mul, t.Laws, Turn, t.Root;
      var p := m - 1;
      var e, o := Sum(t, Evens(x, h), k, 2 * step, p), Sum(t, Odds(x, h), k, 2 * step, p);
      SplitSum(t, x, h, k, step, p);
      TurnSplit(k, p, step);
      var v := t.Root(Turn(k, p, 2 * step));
      RootAdd(t, Turn(k, 1, step), Turn(k, p, 2 * step));
      assert Sum(t, x, k, step, 2 * m - 1) == Add(Sum(t, x, k, step, 2 * p), Scale(x[2 * p], v));
      assert Sum(t, x, k, step, 2 * m) == Add(Sum(t, x, k, step, 2 * m - 1), Scale(x[2 * p + 1], Mul(w, v)));
      MulLinear(w, o, x[2 * p + 1], v);
      AddSwap(e, Mul(w, o), Scale(x[2 * p], v), Scale(x[2 * p + 1], Mul(w, v)));
    }
  }

  /** The transform of `h` points repeats after `h` outputs. */
  lemma {:induction false} SumPeriod(t: Table, x: seq<real>, k: nat, h: nat, step: nat, n: nat)
    requires t.Valid() && n <= |x| && h * step == t.Size()
    ensures Sum(t, x, k + h, step, n) == Sum(t, x, k, step, n)
  {
    hide t.Laws, Turn, t.Root;
    if n > 0 {
      SumPeriod(t, x, k, h, step, n - 1);
      TurnPeriod(k, h, n - 1, step, t.Size());
      RootTurns(t, Turn(k, n - 1, step), n - 1);
    }
  }

  lemma Steps(size: nat, n: nat, h: nat)
    requires n == 2 * h > 0 && size % n == 0
    ensures size % h == 0 && size / h == 2 * (size / n) && h * (size / h) == size && 2 * (h * (size / n)) == size
  {
    var s := size / n;
    assert size == s * n + size % n;
    assert s * n == (2 * s) * h + 0;
    ModUnique(size, h, 2 * s, 0);
  }

  /** An even transform from the transforms of its halves. */
  lemma Halves(t: Table, x: seq<real>, h: nat, k: nat)
    requires t.Valid() && |x| == 2 * h > 0 && t.Size() % |x| == 0 && k < h
    ensures var w := t.Root(Turn(k, 1, Step(t, |x|)));
            var e, o := Dft(t, Evens(x, h), k), Dft(t, Odds(x, h), k);
            Dft(t, x, k) == Add(e, Mul(w, o)) && Dft(t, x, k + h) == Sub(e, Mul(w, o))
  {
    hide Sum, t.Laws, Turn, t.Root;
    var step := t.Size() / |x|;
    Steps(t.Size(), |x|, h);
    SplitSum(t, x, h, k, step, h);
    SplitSum(t, x, h, k + h, step, h);
    SumPeriod(t, Evens(x, h), k, h, 2 * step, h);
    SumPeriod(t, Odds(x, h), k, h, 2 * step, h);
    TurnOne(k, step, h);
    RootHalf(t, Turn(k, 1, step), h * step);
  }

  // ----- the methods

  method ComputeDft(t: Table, inp: array<real>, i0: nat, n: nat, out: array<real>, o0: nat)
    requires t.Sized() && inp != out && n > 0 && i0 + n <= inp.Length && o0 + 2 * n <= out.Length
    modifies out
    ensures forall i :: 0 <= i < out.Length && !(o0 <= i < o0 + 2 * n) ==> out[i] == old(out[i])
    ensures Transformed(t, inp[i0..i0 + n], out[..], o0)
  {
    hide Sum, Turn, Step;
    var step := Step(t, n);
    ghost var x := inp[i0..i0 + n];
    for k := 0 to n
      invariant forall i :: 0 <= i < out.Length && !(o0 <= i < o0 + 2 * n) ==> out[i] == old(out[i])
      invariant forall j :: 0 <= j < k ==> Pair(out, o0, j) == Dft(t, x, j)
    {
      var re, im := 0.0, 0.0;
      SumStart(t, x, k, step);
      for m := 0 to n
        modifies {}
        invariant Complex(re, im) == Sum(t, x, k, step, m)
      {
        SumStep(t, x, k, step, m);
        var idx := Turn(k, m, step) % t.Size();
        re := re + inp[i0 + m] * t.cos[idx];
        im := im - inp[i0 + m] * t.sin[idx];
      }
      out[o0 + 2 * k] := re;
      out[o0 + 2 * k + 1] := im;
      assert Pair(out, o0, k) == Dft(t, x, k);
    }
    forall k | 0 <= k < n
      ensures Complex(out[o0 + 2 * k], out[o0 + 2 * k + 1]) == Dft(t, x, k)
    {
      assert Pair(out, o0, k) == Dft(t, x, k);
    }
  }

  lemma SumStart(t: Table, x: seq<real>, k: nat, step: nat)
    requires t.Sized()
    ensures Sum(t, x, k, step, 0) == ZERO
  {
  }

  lemma SumStep(t: Table, x: seq<real>, k: nat, step: nat, m: nat)
    requires t.Sized() && m < |x|
    ensures 0 <= Turn(k, m, step) % t.Size() < t.Size()
    ensures var idx := Turn(k, m, step) % t.Size();
            var s := Sum(t, x, k, step, m);
            Sum(t, x, k, step, m + 1) == Complex(s.re + x[m] * t.cos[idx], s.im - x[m] * t.sin[idx])
  {
  }

  /** The complex number at place `k` of the output at `o0`. */
  ghost function Pair(out: array<real>, o0: nat, k: nat): Complex
    requires o0 + 2 * k + 1 < out.Length
    reads out
  {
    Complex(out[o0 + 2 * k], out[o0 + 2 * k + 1])
  }

  /** The fast transform is the transform. It needs `n` numbers of scratch after its input and `6n`
      after its output, and changes nothing else. */
  method ComputeFft(t: Table, inp: array<real>, i0: nat, n: nat, out: array<real>, o0: nat)
    requires t.Valid() && inp != out && n > 0 && t.Size() % n == 0
    requires i0 + 2 * n <= inp.Length && o0 + 8 * n <= out.Length
    modifies inp, out
    ensures forall i :: 0 <= i < inp.Length && !(i0 + n <= i < i0 + 2 * n) ==> inp[i] == old(inp[i])
    ensures forall i :: 0 <= i < out.Length && !(o0 <= i < o0 + 8 * n) ==> out[i] == old(out[i])
    ensures Transformed(t, old(inp[i0..i0 + n]), out[..], o0)
    decreases n, 1
  {
    hide t.Laws, Dft, Step, Transformed, Part;
    ghost var x := inp[i0..i0 + n];
    if n == 1 {
      out[o0] := inp[i0];
      out[o0 + 1] := 0.0;
      OnePoint(t, x, out[..], o0);
      return;
    }
    var half := n / 2;
    if n - half * 2 == 1 {
      ComputeDft(t, inp, i0, n, out, o0);
      return;
    }
    Steps(t.Size(), n, half);
    HalfFft(t, inp, i0, half, 0, out, o0 + 4 * half);
    ghost var evenOut := out[..];
    assert inp[i0..i0 + n] == x;
    HalfFft(t, inp, i0, half, 1, out, o0 + 6 * half);
    TransformedFrame(t, Part(x, half, 0), evenOut, out[..], o0 + 4 * half);
    Combine(t, x, half, out, o0);
  }

  ghost function Part(x: seq<real>, half: nat, odd: nat): (r: seq<real>)
    requires 2 * half <= |x|
    ensures |r| == half
  {
    if odd == 0 then Evens(x, half) else Odds(x, half)
  }

  /** Gather one half of the input behind it and transform it there. */
  method HalfFft(t: Table, inp: array<real>, i0: nat, half: nat, odd: nat, out: array<real>, o0: nat)
    requires t.Valid() && inp != out && half > 0 && odd <= 1 && t.Size() % half == 0
    requires i0 + 4 * half <= inp.Length && o0 + 8 * half <= out.Length
    modifies inp, out
    ensures forall i :: 0 <= i < inp.Length && !(i0 + 2 * half <= i < i0 + 4 * half) ==> inp[i] == old(inp[i])
    ensures forall i :: 0 <= i < out.Length && !(o0 <= i < o0 + 8 * half) ==> out[i] == old(out[i])
    ensures Transformed(t, Part(old(inp[i0..i0 + 2 * half]), half, odd), out[..], o0)
    decreases half, 2
  {
    hide t.Laws, Dft, Transformed;
    ghost var x := inp[i0..i0 + 2 * half];
    Gather(inp, i0, half, odd);
    assert inp[i0 + 2 * half..i0 + 2 * half + half] == Part(x, half, odd);
    ComputeFft(t, inp, i0 + 2 * half, half, out, o0);
  }

  /** Copy every second number, from the first or the second one on, behind the input. */
  method Gather(inp: array<real>, i0: nat, half: nat, odd: nat)
    requires odd <= 1 && i0 + 4 * half <= inp.Length
    modifies inp
    ensures forall j :: 0 <= j < inp.Length && !(i0 + 2 * half <= j < i0 + 3 * half) ==> inp[j] == old(inp[j])
    ensures forall j :: 0 <= j < half ==>
              inp[i0 + 2 * half..i0 + 3 * half][j] == old(inp[i0..i0 + 2 * half])[2 * j + odd]
  {
    for i := 0 to half
      invariant forall j :: 0 <= j < inp.Length && !(i0 + 2 * half <= j < i0 + 3 * half) ==> inp[j] == old(inp[j])
      invariant forall j :: 0 <= j < i ==> inp[i0 + 2 * half + j] == old(inp[i0..i0 + 2 * half])[2 * j + odd]
    {
      inp[i0 + 2 * half + i] := inp[i0 + (2 * i + odd)];
    }
  }

  /** The numbers at `o0` are the transform of `x`. */
  ghost predicate Transformed(t: Table, x: seq<real>, out: seq<real>, o0: nat)
    requires t.Sized() && |x| > 0
  {
    o0 + 2 * |x| <= |out| && forall k :: 0 <= k < |x| ==> Complex(out[o0 + 2 * k], out[o0 + 2 * k + 1]) == Dft(t, x, k)
  }

  lemma TransformedFrame(t: Table, x: seq<real>, was: seq<real>, now: seq<real>, o0: nat)
    requires t.Sized() && |x| > 0 && Transformed(t, x, was, o0) && |now| == |was|
    requires forall i :: o0 <= i < o0 + 2 * |x| ==> now[i] == was[i]
    ensures Transformed(t, x, now, o0)
  {
  }

  lemma OnePoint(t: Table, x: seq<real>, out: seq<real>, o0: nat)
    requires t.Valid() && |x| == 1 && o0 + 2 <= |out| && out[o0] == x[0] && out[o0 + 1] == 0.0
    ensures Transformed(t, x, out, o0)
  {
    var step := t.Size() / 1;
    assert Turn(0, 0, step) == 0;
    assert Sum(t, x, 0, step, 0) == ZERO;
  }

  method Butterfly(t: Table, half: nat, k: nat, out: array<real>, o0: nat)
    requires t.Sized() && k < half && t.Size() % (2 * half) == 0 && o0 + 16 * half <= out.Length
    modifies out
    ensures forall j: nat :: o0 + 2 * j + 1 < out.Length && j != k && j != k + half ==>
              Pair(out, o0, j) == old(Pair(out, o0, j))
    ensures forall i :: 0 <= i < out.Length && !(o0 <= i < o0 + 4 * half) ==> out[i] == old(out[i])
    ensures var w := t.Root(Turn(k, 1, Step(t, 2 * half)));
            var e, o := old(Pair(out, o0 + 4 * half, k)), old(Pair(out, o0 + 6 * half, k));
            Pair(out, o0, k) == Add(e, Mul(w, o)) && Pair(out, o0, k + half) == Sub(e, Mul(w, o))
  {
    hide Turn, Step, Mul;
    var n := 2 * half;
    var ev, od := o0 + 2 * n, o0 + 3 * n;
    TwiddleIndex(t, n, k);
    var idx := Turn(k, 1, Step(t, n));
    var re, im := t.cos[idx], -t.sin[idx];
    var reOdd, imOdd := out[od + 2 * k], out[od + 2 * k + 1];
    var reEven, imEven := out[ev + 2 * k], out[ev + 2 * k + 1];
    Products(re, im, reOdd, imOdd);
    out[o0 + 2 * k] := reEven + re * reOdd - im * imOdd;
    out[o0 + 2 * k + 1] := imEven + re * imOdd + im * reOdd;
    out[o0 + 2 * (k + half)] := reEven - re * reOdd + im * imOdd;
    out[o0 + 2 * (k + half) + 1] := imEven - re * imOdd - im * reOdd;
  }

  lemma Products(re: real, im: real, x: real, y: real)
    ensures Mul(Complex(re, im), Complex(x, y)) == Complex(re * x - im * y, re * y + im * x)
  {
  }

  /** The butterflies: both halves of the output from the transforms of the even and odd parts. */
  method Combine(t: Table, ghost x: seq<real>, half: nat, out: array<real>, o0: nat)
    requires t.Valid() && |x| == 2 * half > 0 && t.Size() % |x| == 0 && o0 + 16 * half <= out.Length
    requires Transformed(t, Part(x, half, 0), out[..], o0 + 4 * half)
    requires Transformed(t, Part(x, half, 1), out[..], o0 + 6 * half)
    modifies out
    ensures forall i :: 0 <= i < out.Length && !(o0 <= i < o0 + 4 * half) ==> out[i] == old(out[i])
    ensures Transformed(t, x, out[..], o0)
  {
    hide t.Laws, t.Root, Dft, Evens, Odds, Step, Turn, Mul, Add, Sub;
    var n := 2 * half;
    for k := 0 to half
      invariant forall i :: 0 <= i < out.Length && !(o0 <= i < o0 + 2 * n) ==> out[i] == old(out[i])
      invariant forall j :: 0 <= j < k || half <= j < half + k ==> Pair(out, o0, j) == Dft(t, x, j)
    {
      Halves(t, x, half, k);
      ghost var e, o := Dft(t, Evens(x, half), k), Dft(t, Odds(x, half), k);
      assert e == Pair(out, o0 + 2 * n, k) && o == Pair(out, o0 + 3 * n, k);
      Butterfly(t, half, k, out, o0);
    }
    forall k | 0 <= k < n
      ensures Complex(out[o0 + 2 * k], out[o0 + 2 * k + 1]) == Dft(t, x, k)
    {
      assert Pair(out, o0, k) == Dft(t, x, k);
    }
  }

  lemma TwiddleIndex(t: Table, n: nat, k: nat)
    requires t.Sized() && k < n && t.Size() % n == 0
    ensures 0 <= Turn(k, 1, Step(t, n)) < t.Size() && Turn(k, 1, Step(t, n)) % t.Size() == Turn(k, 1, Step(t, n))
  {
    var size := t.Size();
    var s := size / n;
    assert size == s * n + size % n;
    assert s > 0;
    assert k * s < n * s;
    TurnOne(k, s, 0);
    ModUnique(k * s, size, 0, k * s);
  }
}
