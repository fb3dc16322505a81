/** Fermat's little theorem, by permuting the non-zero residues of a prime. */
module Fermat {
  import opened Arithmetic

  ghost function SetProduct(s: set<int>): int
  {
    if s == {} then 1 else var x := Pick(s); x * SetProduct(s - {x})
  }

  ghost function Pick<T>(s: set<T>): (x: T)
    requires s != {}
    ensures x in s
  {
    var x :| x in s; x
  }

  lemma {:induction false} SetProductRemove(s: set<int>, y: int)
    requires y in s
    ensures SetProduct(s) == y * SetProduct(s - {y})
  {
    var x := Pick(s);
    if x != y {
      SetProductRemove(s - {x}, y);
      SetProductRemove(s - {y}, x);
      assert s - {x} - {y} == s - {y} - {x};
      MulSwap(x, y, SetProduct(s - {x} - {y}));
    }
  }

  lemma {:induction false} MulSwap(x: int, y: int, r: int)
    ensures x * (y * r) == y * (x * r)
  {
  }

  ghost function Residues(n: nat): (s: set<int>)
    ensures |s| == n
    ensures forall x :: x in s <==> 1 <= x <= n
  {
    if n == 0 then {} else Residues(n - 1) + {n}
  }

  ghost function Image(f: int -> int, s: set<int>): set<int>
  {
    set x | x in s :: f(x)
  }

  ghost predicate InjectiveOn(f: int -> int, s: set<int>)
  {
    forall x, y :: x in s && y in s && f(x) == f(y) ==> x == y
  }

  lemma {:induction false} ImageRemove(f: int -> int, s: set<int>, x: int)
    requires InjectiveOn(f, s) && x in s
    ensures f(x) in Image(f, s)
    ensures Image(f, s) - {f(x)} == Image(f, s - {x})
  {
  }

  lemma {:induction false} ImageSize(f: int -> int, s: set<int>)
    requires InjectiveOn(f, s)
    ensures |Image(f, s)| == |s|
  {
    if s != {} {
      var x := Pick(s);
      ImageRemove(f, s, x);
      ImageSize(f, s - {x});
    }
  }

  lemma {:induction false} ImageProduct(f: int -> int, a: int, p: int, s: set<int>)
    requires p > 0 && InjectiveOn(f, s)
    requires forall x :: x in s ==> Congruent(f(x), a * x, p)
    ensures Congruent(SetProduct(Image(f, s)), Pow(a, |s|) * SetProduct(s), p)
  {
    if s == {} {
      assert Image(f, s) == {};
    } else {
      var x := Pick(s);
      assert InjectiveOn(f, s - {x}) && |s - {x}| == |s| - 1;
      assert Pow(a, |s|) == a * Pow(a, |s| - 1);
      hide Congruent, SetProduct, InjectiveOn, Image, Pow;
      ImageRemove(f, s, x);
      ImageProduct(f, a, p, s - {x});
      SetProductRemove(Image(f, s), f(x));
      SetProductRemove(s, x);
      ImageProductStep(f(x), a, p, x, SetProduct(Image(f, s - {x})), Pow(a, |s| - 1), SetProduct(s - {x}));
    }
  }

  lemma {:induction false} ImageProductStep(y: int, a: int, p: int, x: int, w: int, u: int, v: int)
    requires p > 0 && Congruent(w, u * v, p) && Congruent(y, a * x, p)
    ensures Congruent(y * w, (a * u) * (x * v), p)
  {
    CongruentMul(y, a * x, w, u * v, p);
    MulInterchange(a, x, u, v);
  }

  /** Multiplication by a unit permutes the non-zero residues. */
  lemma {:induction false} TimesPermutes(p: int, a: int, f: int -> int)
    requires IsPrime(p) && !Divides(p, a)
    requires forall x :: f(x) == (a * x) % p
    ensures InjectiveOn(f, Residues(p - 1))
    ensures Image(f, Residues(p - 1)) <= Residues(p - 1)
    ensures forall x :: x in Residues(p - 1) ==> Congruent(f(x), a * x, p)
  {
    var s := Residues(p - 1);
    forall x, y | x in s && y in s && f(x) == f(y)
      ensures x == y
    {
      TimesInjective(a, p, x, y);
    }
    forall x | x in s
      ensures f(x) in s && Congruent(f(x), a * x, p)
    {
      ModIsCongruent(a * x, p);
      ModUnique(x, p, 0, x);
      EuclidLemma(p, a, x);
    }
  }

  lemma {:induction false} TimesInjective(a: int, p: int, x: int, y: int)
    requires IsPrime(p) && !Divides(p, a)
    requires 0 <= x < p && 0 <= y < p && (a * x) % p == (a * y) % p
    ensures x == y
  {
    CancelMod(p, a, x, y);
    ModUnique(x, p, 0, x);
    ModUnique(y, p, 0, y);
  }

  lemma {:induction false} SetProductNotDivisible(p: int, s: set<int>)
    requires IsPrime(p) && s <= Residues(p - 1)
    ensures !Divides(p, SetProduct(s))
  {
    if s == {} {
      ModUnique(1, p, 0, 1);
    } else {
      var x := Pick(s);
      SetProductNotDivisible(p, s - {x});
      SetProductRemove(s, x);
      ModUnique(x, p, 0, x);
      EuclidLemma(p, x, SetProduct(s - {x}));
    }
  }

  lemma {:induction false} FermatPermuted(p: int, a: int, f: int -> int)
    requires IsPrime(p)
    requires InjectiveOn(f, Residues(p - 1))
    requires Image(f, Residues(p - 1)) <= Residues(p - 1)
    requires forall x :: x in Residues(p - 1) ==> Congruent(f(x), a * x, p)
    ensures Congruent(Pow(a, p - 1), 1, p)
  {
    hide Congruent, Divides, SetProduct, Pow;
    var s := Residues(p - 1);
    ImageProduct(f, a, p, s);
    ImageSize(f, s);
    SubsetSameSize(Image(f, s), s);
    SetProductNotDivisible(p, s);
    CancelUnit(p, SetProduct(s), Pow(a, p - 1));
  }

  /** Fermat's little theorem. */
  lemma {:induction false} FermatLittle(p: int, a: int)
    requires IsPrime(p) && !Divides(p, a)
    ensures Congruent(Pow(a, p - 1), 1, p)
  {
    hide Congruent, Divides, Pow;
    var f := x => (a * x) % p;
    TimesPermutes(p, a, f);
    FermatPermuted(p, a, f);
  }

  lemma {:induction false} SubsetSameSize(a: set<int>, b: set<int>)
    requires a <= b && |a| == |b|
    ensures a == b
  {
    assert |b - a| == |b| - |a|;
  }

  lemma {:induction false} CancelUnit(p: int, w: int, v: int)
    requires IsPrime(p) && !Divides(p, w) && Congruent(w, v * w, p)
    ensures Congruent(v, 1, p)
  {
    assert w * 1 == w && w * v == v * w;
    CancelMod(p, w, v, 1);
  }

  /** Exponents of an invertible base only matter modulo `p - 1`. */
  lemma {:induction false} ExponentsModOrder(p: int, a: int, x: nat, y: nat)
    requires IsPrime(p) && !Divides(p, a)
    requires Congruent(x, y, p - 1)
    ensures Congruent(Pow(a, x), Pow(a, y), p)
    decreases x < y
  {
    if x < y {
      ExponentsModOrder(p, a, y, x);
    } else {
      var k := CongruenceMultiple(x, y, p - 1);
      MultipleBounds(k, p - 1);
      PowAdd(a, y, k * (p - 1));
      PowPow(a, p - 1, k);
      FermatLittle(p, a);
      PowCongruent(Pow(a, p - 1), 1, k, p);
      PowOfOne(k);
      assert (p - 1) * k == k * (p - 1);
      CongruentMul(Pow(a, y), Pow(a, y), Pow(a, k * (p - 1)), 1, p);
    }
  }
}
