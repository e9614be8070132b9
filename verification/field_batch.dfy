/**
  Batch inversion with one field inversion (Montgomery's trick), in place, over one slice, over
  several slices, and chunk by chunk.
 */
module FieldBatch {
  import opened Options
  import opened FieldOps
  import opened WorkerGeometry

  /** The elementwise inverses. */
  ghost predicate Inverses<T(!new)>(f: Field<T>, was: seq<T>, s: seq<T>) {
    |s| == |was| && forall i :: 0 <= i < |s| ==> f.inv(was[i]) == Some(s[i])
  }

  /** One step back: the product of the prefix with the running inverse is the inverse of the element. */
  lemma StepBack<T(!new)>(f: Field<T>, prefix: T, el: T, grand: T)
    requires Lawful(f) && f.mul(f.mul(prefix, el), grand) == f.one
    ensures f.inv(el) == Some(f.mul(prefix, grand))
    ensures f.mul(prefix, f.mul(grand, el)) == f.one
  {
    hide Lawful;
    Comm(f, prefix, el);
    Assoc(f, el, prefix, grand);
    InverseUnique(f, el, f.mul(prefix, grand));
    Comm(f, grand, el);
    Assoc(f, prefix, el, grand);
  }

  lemma ProductSnoc<T(!new)>(f: Field<T>, s: seq<T>, i: nat)
    requires i < |s|
    ensures Product(f, s[..i + 1]) == f.mul(Product(f, s[..i]), s[i])
  {
    assert s[..i + 1][..i] == s[..i];
  }

  lemma ProductOne<T(!new)>(f: Field<T>, s: seq<T>)
    requires Lawful(f) && s != []
    ensures Product(f, s[..0]) == f.one && Product(f, s[..1]) == s[0]
  {
    hide Lawful;
    ProductSnoc(f, s, 0);
    OneMul(f, s[0]);
  }

  /** The shorter of the two lengths: as far as the source pairs elements of input and buffer. */
  function Paired(n: nat, m: nat): nat { if n < m then n else m }

  /** The buffer after the forward loop: prefix products, then whatever was there. */
  ghost function Filled<T(!new)>(f: Field<T>, s: seq<T>, b: seq<T>, j: nat): T
    requires j < |b|
  {
    if j < Paired(|s|, |b|) then Product(f, s[..j]) else b[j]
  }

  /** The running inverse after k backward steps from the end of the input. */
  ghost function Grand<T(!new)>(f: Field<T>, s: seq<T>, c: nat, k: nat): T
    requires c <= |s| && k <= |s|
    decreases k
  {
    if k == 0 then (match f.inv(Product(f, s[..c])) case Some(v) => v case None => f.zero)
    else f.mul(Grand(f, s, c, k - 1), s[|s| - k])
  }

  /** What the loops leave at position j: input and buffer are paired from their ends, and the front of a longer input is untouched. */
  ghost function AfterAt<T(!new)>(f: Field<T>, s: seq<T>, b: seq<T>, j: nat): T
    requires j < |s|
  {
    var n, m := |s|, |b|;
    var c := Paired(n, m);
    if j < n - c then s[j] else f.mul(Filled(f, s, b, m - n + j), Grand(f, s, c, n - 1 - j))
  }

  ghost function After<T(!new)>(f: Field<T>, s: seq<T>, b: seq<T>): (r: seq<T>)
    ensures |r| == |s|
  {
    seq(|s|, j requires 0 <= j < |s| => AfterAt(f, s, b, j))
  }

  /** Prefix products into the buffer, as far as input and buffer are paired. */
  method Forward<T(!new)>(f: Field<T>, input: array<T>, lo: nat, hi: nat, buffer: array<T>, from: nat, to: nat) returns (accumulator: T)
    requires Lawful(f) && input != buffer && lo < hi <= input.Length && from < to <= buffer.Length
    modifies buffer
    ensures accumulator == Product(f, input[lo..hi][..Paired(hi - lo, to - from)])
    ensures forall j :: from <= j < to ==> buffer[j] == Filled(f, input[lo..hi], old(buffer[from..to]), j - from)
    ensures buffer[..from] == old(buffer[..from]) && buffer[to..] == old(buffer[to..])
  {
    hide Lawful, Product, Filled;
    ghost var s, b, rest := input[lo..hi], buffer[from..to], buffer[..];
    var c := Paired(hi - lo, to - from);
    buffer[from] := f.one;
    accumulator := input[lo];
    ProductOne(f, s);
    FilledStart(f, s, b);
    for i := 1 to c
      invariant accumulator == Product(f, s[..i])
      invariant forall j :: from <= j < from + i ==> buffer[j] == Filled(f, s, b, j - from)
      invariant forall j :: from + i <= j < to ==> buffer[j] == b[j - from]
      invariant buffer[..from] == rest[..from] && buffer[to..] == rest[to..]
    {
      ProductSnoc(f, s, i);
      FilledIs(f, s, b, i);
      buffer[from + i] := accumulator;
      accumulator := f.mul(accumulator, input[lo + i]);
    }
    forall j | from + c <= j < to
      ensures buffer[j] == Filled(f, s, b, j - from)
    {
      FilledIs(f, s, b, j - from);
    }
  }

  /** Overwrites the paired elements from the end. */
  method Backward<T(!new)>(f: Field<T>, input: array<T>, lo: nat, hi: nat, buffer: array<T>, from: nat, to: nat, start: T, ghost b: seq<T>)
    requires input != buffer && lo < hi <= input.Length && from < to <= buffer.Length && |b| == to - from
    requires start == Grand(f, input[lo..hi], Paired(hi - lo, to - from), 0)
    requires forall j :: from <= j < to ==> buffer[j] == Filled(f, input[lo..hi], b, j - from)
    modifies input
    ensures input[lo..hi] == After(f, old(input[lo..hi]), b)
    ensures input[..lo] == old(input[..lo]) && input[hi..] == old(input[hi..])
  {
    hide Product, Grand, Filled, AfterAt;
    ghost var s, before := input[lo..hi], input[..];
    var c := Paired(hi - lo, to - from);
    var grand := start;
    for k := 0 to c
      invariant grand == Grand(f, s, c, k)
      invariant forall j :: lo <= j < hi - k ==> input[j] == s[j - lo]
      invariant forall j :: hi - k <= j < hi ==> input[j] == AfterAt(f, s, b, j - lo)
      invariant input[..lo] == before[..lo] && input[hi..] == before[hi..]
    {
      var t := f.mul(buffer[to - 1 - k], grand);
      GrandIs(f, s, c, k + 1);
      AfterIs(f, s, b, hi - 1 - k - lo);
      grand := f.mul(grand, input[hi - 1 - k]);
      input[hi - 1 - k] := t;
    }
    forall j | lo <= j < hi - c
      ensures input[j] == AfterAt(f, s, b, j - lo)
    {
      AfterIs(f, s, b, j - lo);
    }
  }

  /**
    The loops on a slice of the input and a slice of the buffer, of any lengths. It panics exactly
    when the input is not empty but the buffer is, or when a paired element is zero, and then
    nothing has been overwritten in the input.
   */
  method BatchInverseRange<T(==,!new)>(f: Field<T>, input: array<T>, lo: nat, hi: nat, buffer: array<T>, from: nat, to: nat)
    returns (ok: bool)
    requires Lawful(f) && input != buffer && lo <= hi <= input.Length && from <= to <= buffer.Length
    modifies input, buffer
    ensures ok <==> lo == hi || (from < to && ZeroFree(f, old(input[lo..hi])[..Paired(hi - lo, to - from)]))
    ensures ok ==> input[lo..hi] == After(f, old(input[lo..hi]), old(buffer[from..to]))
    ensures !ok ==> input[..] == old(input[..])
    ensures input[..lo] == old(input[..lo]) && input[hi..] == old(input[hi..])
    ensures buffer[..from] == old(buffer[..from]) && buffer[to..] == old(buffer[to..])
  {
    hide Lawful, Product, Grand, Filled, AfterAt;
    ghost var s, b := input[lo..hi], buffer[from..to];
    if lo == hi { return true; }
    if from == to { return false; }
    var accumulator := Forward(f, input, lo, hi, buffer, from, to);
    ghost var c := Paired(hi - lo, to - from);
    ProductZero(f, s[..c]);
    InvMul(f, accumulator);
    if f.inv(accumulator).None? { return false; }
    GrandIs(f, s, c, 0);
    Backward(f, input, lo, hi, buffer, from, to, f.inv(accumulator).value, b);
    ok := true;
  }

  lemma AfterIs<T(!new)>(f: Field<T>, s: seq<T>, b: seq<T>, j: nat)
    requires j < |s|
    ensures var n, m := |s|, |b|; var c := Paired(n, m);
      AfterAt(f, s, b, j) == if j < n - c then s[j] else f.mul(Filled(f, s, b, m - n + j), Grand(f, s, c, n - 1 - j))
  {
  }

  lemma FilledIs<T(!new)>(f: Field<T>, s: seq<T>, b: seq<T>, j: nat)
    requires j < |b|
    ensures Filled(f, s, b, j) == if j < Paired(|s|, |b|) then Product(f, s[..j]) else b[j]
  {
  }

  lemma FilledStart<T(!new)>(f: Field<T>, s: seq<T>, b: seq<T>)
    requires Lawful(f) && s != [] && b != []
    ensures Filled(f, s, b, 0) == f.one
  {
    hide Lawful;
    ProductOne(f, s);
  }

  lemma GrandIs<T(!new)>(f: Field<T>, s: seq<T>, c: nat, k: nat)
    requires c <= |s| && k <= |s|
    ensures k == 0 && f.inv(Product(f, s[..c])).Some? ==> Grand(f, s, c, k) == f.inv(Product(f, s[..c])).value
    ensures k > 0 ==> Grand(f, s, c, k) == f.mul(Grand(f, s, c, k - 1), s[|s| - k])
  {
    hide Product;
  }

  /** With equal lengths, prefix product and running inverse always cancel. */
  lemma {:induction false} GrandCancels<T(!new)>(f: Field<T>, s: seq<T>, k: nat)
    requires Lawful(f) && ZeroFree(f, s) && k <= |s|
    ensures f.mul(Product(f, s[..|s| - k]), Grand(f, s, |s|, k)) == f.one
  {
    hide Lawful, Product, Grand;
    var n := |s|;
    assert s[..n] == s;
    GrandIs(f, s, n, k);
    if k == 0 {
      ProductZero(f, s);
      InvMul(f, Product(f, s));
    } else {
      GrandCancels(f, s, k - 1);
      ProductSnoc(f, s, n - k);
      StepBack(f, Product(f, s[..n - k]), s[n - k], Grand(f, s, n, k - 1));
    }
  }

  /** Then every element becomes its inverse. */
  lemma AlignedInverts<T(!new)>(f: Field<T>, s: seq<T>, b: seq<T>)
    requires Lawful(f) && ZeroFree(f, s) && |s| == |b|
    ensures Inverses(f, s, After(f, s, b))
  {
    hide Lawful, Product, Grand, Filled, AfterAt;
    var n := |s|;
    forall j | 0 <= j < n
      ensures f.inv(s[j]) == Some(After(f, s, b)[j])
    {
      AfterIs(f, s, b, j);
      FilledIs(f, s, b, j);
      GrandCancels(f, s, n - 1 - j);
      ProductSnoc(f, s, j);
      StepBack(f, Product(f, s[..j]), s[j], Grand(f, s, n, n - 1 - j));
    }
  }

  ghost predicate AlwaysInverts<T(!new)>(f: Field<T>, n: nat, m: nat) {
    forall s: seq<T>, b: seq<T> :: |s| == n && |b| == m && ZeroFree(f, s) ==> Inverses(f, s, After(f, s, b))
  }

  /** A longer buffer brings a stale entry in. */
  lemma LongerBuffer<T(!new)>(f: Field<T>, n: nat, m: nat)
    requires Lawful(f) && 0 < n < m
    ensures !AlwaysInverts(f, n, m)
  {
    hide Lawful, Product, Grand, Filled, AfterAt;
    var s: seq<T>, b: seq<T> := seq(n, _ => f.one), seq(m, _ => f.zero);
    OneMul(f, f.one);
    AfterIs(f, s, b, n - 1);
    FilledIs(f, s, b, m - 1);
    ZeroMul(f, Grand(f, s, n, 0));
    InvMul(f, f.one);
    ZeroMul(f, f.one);
    assert !Inverses(f, s, After(f, s, b)) by { assert f.inv(s[n - 1]) != Some(After(f, s, b)[n - 1]); }
  }

  /** A shorter buffer leaves the front as it was. */
  lemma ShorterBuffer<T(!new)>(f: Field<T>, n: nat, m: nat, a: T)
    requires Lawful(f) && m < n && a != f.zero && f.mul(a, a) != f.one
    ensures !AlwaysInverts(f, n, m)
  {
    hide Lawful, Product, Grand, Filled, AfterAt;
    var s: seq<T>, b: seq<T> := seq(n, _ => a), seq(m, _ => a);
    InvMul(f, a);
    AfterIs(f, s, b, 0);
    assert !Inverses(f, s, After(f, s, b)) by { assert f.inv(s[0]) != Some(After(f, s, b)[0]); }
  }

  /** In a field with an element that is not its own inverse, the lengths must agree, and that is enough. */
  lemma LengthsExactly<T(!new)>(f: Field<T>, n: nat, m: nat, a: T)
    requires Lawful(f) && n > 0 && a != f.zero && f.mul(a, a) != f.one
    ensures AlwaysInverts(f, n, m) <==> n == m
  {
    hide Lawful, Inverses, After;
    if n < m { LongerBuffer(f, n, m); }
    if m < n { ShorterBuffer(f, n, m, a); }
    if n == m {
      forall s: seq<T>, b: seq<T> | |s| == n && |b| == m && ZeroFree(f, s)
        ensures Inverses(f, s, After(f, s, b))
      {
        AlignedInverts(f, s, b);
      }
    }
  }

  /** So it is in the base field, where two is not its own inverse. */
  lemma BaseLengths(n: nat, m: nat)
    requires n > 0
    ensures AlwaysInverts(BaseField(), n, m) <==> n == m
  {
    hide AlwaysInverts, Lawful;
    BaseFieldLawful();
    var two: Residue := 2;
    assert BaseField().mul(two, two) == 4;
    LengthsExactly(BaseField(), n, m, two);
  }

  /** The whole slice; an empty one is left alone. A buffer of another length is accepted and pairs wrong elements. */
  method BatchInverseInPlace<T(==,!new)>(f: Field<T>, input: array<T>, buffer: array<T>) returns (ok: bool)
    requires Lawful(f) && input != buffer
    modifies input, buffer
    ensures ok <==> input.Length == 0 || (buffer.Length > 0 && ZeroFree(f, old(input[..])[..Paired(input.Length, buffer.Length)]))
    ensures ok ==> input[..] == After(f, old(input[..]), old(buffer[..]))
    ensures ok && input.Length == buffer.Length ==> Inverses(f, old(input[..]), input[..])
    ensures !ok ==> input[..] == old(input[..])
  {
    hide Lawful, After;
    assert input[0..input.Length] == input[..] && buffer[0..buffer.Length] == buffer[..];
    ghost var s, b := input[..], buffer[..];
    ok := BatchInverseRange(f, input, 0, input.Length, buffer, 0, buffer.Length);
    assert input[0..input.Length] == input[..];
    if ok && |s| == |b| {
      assert ZeroFree(f, s) by { assert s[..|s|] == s; }
      AlignedInverts(f, s, b);
    }
  }

  /**
    The form with a growable buffer: it must come in empty and goes out empty. Pushing makes the
    buffer as long as the input, so its length is no concern of the caller.
   */
  method BatchInverseWithBuffer<T(==,!new)>(f: Field<T>, input: array<T>, given: seq<T>) returns (ok: bool, buffer: seq<T>)
    requires Lawful(f)
    modifies input
    ensures ok <==> given == [] && ZeroFree(f, old(input[..]))
    ensures ok ==> Inverses(f, old(input[..]), input[..]) && buffer == []
    ensures !ok ==> input[..] == old(input[..])
  {
    hide Lawful, Product;
    buffer := given;
    if buffer != [] { return false, buffer; }
    ghost var was := input[..];
    if input.Length == 0 { return true, buffer; }
    buffer := [f.one];
    var accumulator := input[0];
    ProductOne(f, was);
    for i := 1 to input.Length
      invariant input[..] == was && |buffer| == i
      invariant accumulator == Product(f, was[..i])
      invariant forall j :: 0 <= j < i ==> buffer[j] == Product(f, was[..j])
    {
      ProductSnoc(f, was, i);
      buffer := buffer + [accumulator];
      accumulator := f.mul(accumulator, input[i]);
    }
    assert was[..input.Length] == was;
    ProductZero(f, was);
    InvMul(f, accumulator);
    if f.inv(accumulator).None? { return false, buffer; }
    var grand := f.inv(accumulator).value;
    for i := input.Length downto 0
      invariant f.mul(Product(f, was[..i]), grand) == f.one
      invariant forall j :: 0 <= j < i ==> input[j] == was[j]
      invariant forall j :: i <= j < input.Length ==> f.inv(was[j]) == Some(input[j])
    {
      ProductSnoc(f, was, i);
      StepBack(f, buffer[i], input[i], grand);
      var t := f.mul(buffer[i], grand);
      grand := f.mul(grand, input[i]);
      input[i] := t;
    }
    return true, [];
  }

  // ----------------------------------------------------------- several slices

  /** The slices laid end to end. */
  ghost function Flat<T>(slices: seq<array<T>>): seq<T>
    reads slices
  {
    if slices == [] then [] else Flat(slices[..|slices| - 1]) + slices[|slices| - 1][..]
  }

  ghost predicate Distinct<T>(slices: seq<array<T>>) { forall i, j :: 0 <= i < j < |slices| ==> slices[i] != slices[j] }

  /** Where the elements of slice `s` start in the concatenation. */
  function Offset<T>(slices: seq<array<T>>, s: nat): (r: nat)
    requires s <= |slices|
  {
    if s == 0 then 0 else Offset(slices, s - 1) + slices[s - 1].Length
  }

  ghost predicate Holds<T>(slices: seq<array<T>>, flat: seq<T>)
    reads slices
  {
    |flat| == Offset(slices, |slices|)
    && forall s, j :: 0 <= s < |slices| && 0 <= j < slices[s].Length ==> HoldsAt(slices, flat, s, j)
  }

  ghost predicate HoldsAt<T>(slices: seq<array<T>>, flat: seq<T>, s: nat, j: nat)
    requires s < |slices| && j < slices[s].Length
    reads slices[s]
  {
    Offset(slices, s) + j < |flat| && slices[s][j] == flat[Offset(slices, s) + j]
  }

  lemma {:induction false} OffsetOrder<T>(slices: seq<array<T>>, s: nat, t: nat)
    requires s < t <= |slices|
    ensures Offset(slices, s) + slices[s].Length <= Offset(slices, t)
    decreases t
  {
    if s < t - 1 { OffsetOrder(slices, s, t - 1); }
  }

  lemma {:induction false} OffsetPrefix<T>(slices: seq<array<T>>, n: nat, s: nat)
    requires s <= n <= |slices|
    ensures Offset(slices[..n], s) == Offset(slices, s)
  {
    if s > 0 { OffsetPrefix(slices, n, s - 1); }
  }

  /** The concatenation holds element j of slice s at its offset plus j. */
  lemma {:induction false} FlatAt<T>(slices: seq<array<T>>)
    ensures Holds(slices, Flat(slices))
  {
    var flat := Flat(slices);
    if slices != [] {
      var n := |slices| - 1;
      FlatAt(slices[..n]);
      OffsetPrefix(slices, n, n);
      assert |flat| == Offset(slices, |slices|);
      forall s, j | 0 <= s < |slices| && 0 <= j < slices[s].Length
        ensures HoldsAt(slices, flat, s, j)
      {
        if s < n {
          OffsetPrefix(slices, n, s);
          OffsetOrder(slices, s, n);
          assert HoldsAt(slices[..n], Flat(slices[..n]), s, j);
        }
      }
    }
  }

  /** Every position of the concatenation is an element of some slice. */
  lemma {:induction false} Locate<T>(slices: seq<array<T>>, n: nat, k: nat) returns (s: nat, j: nat)
    requires n <= |slices| && k < Offset(slices, n)
    ensures s < n && j < slices[s].Length && Offset(slices, s) + j == k
  {
    if k >= Offset(slices, n - 1) {
      s, j := n - 1, k - Offset(slices, n - 1);
    } else {
      s, j := Locate(slices, n - 1, k);
    }
  }

  lemma OffsetUnique<T>(slices: seq<array<T>>, s: nat, j: nat, t: nat, i: nat)
    requires s < |slices| && j < slices[s].Length && t < |slices| && i < slices[t].Length
    ensures Offset(slices, s) + j == Offset(slices, t) + i ==> s == t && i == j
  {
    if s < t { OffsetOrder(slices, s, t); }
    if t < s { OffsetOrder(slices, t, s); }
  }

  /** Positions below `k` still hold the old elements, the others their inverses. */
  ghost predicate Partly<T(!new)>(f: Field<T>, slices: seq<array<T>>, was: seq<T>, k: nat)
    reads slices
  {
    |was| == Offset(slices, |slices|)
    && forall s, j :: 0 <= s < |slices| && 0 <= j < slices[s].Length ==> PartlyAt(f, slices, was, k, s, j)
  }

  ghost predicate PartlyAt<T(!new)>(f: Field<T>, slices: seq<array<T>>, was: seq<T>, k: nat, s: nat, j: nat)
    requires s < |slices| && j < slices[s].Length
    reads slices[s]
  {
    var o := Offset(slices, s) + j;
    o < |was| && if o < k then slices[s][j] == was[o] else f.inv(was[o]) == Some(slices[s][j])
  }

  lemma PartlyStart<T(!new)>(f: Field<T>, slices: seq<array<T>>, was: seq<T>)
    requires Holds(slices, was)
    ensures Partly(f, slices, was, |was|)
  {
    forall s, j | 0 <= s < |slices| && 0 <= j < slices[s].Length
      ensures PartlyAt(f, slices, was, |was|, s, j)
    {
      assert HoldsAt(slices, was, s, j);
    }
  }

  lemma PartlyEnd<T(!new)>(f: Field<T>, slices: seq<array<T>>, was: seq<T>)
    requires Partly(f, slices, was, 0)
    ensures Inverses(f, was, Flat(slices))
  {
    var flat := Flat(slices);
    FlatAt(slices);
    forall k | 0 <= k < |flat|
      ensures f.inv(was[k]) == Some(flat[k])
    {
      var s, j := Locate(slices, |slices|, k);
      assert HoldsAt(slices, flat, s, j) && PartlyAt(f, slices, was, 0, s, j);
    }
  }

  /** Overwrites one element by its inverse. */
  method InvertAt<T(==,!new)>(f: Field<T>, slices: seq<array<T>>, s: nat, j: nat, t: T, ghost was: seq<T>)
    requires s < |slices| && j < slices[s].Length && Distinct(slices)
    requires Partly(f, slices, was, Offset(slices, s) + j + 1)
    requires Offset(slices, s) + j < |was| && f.inv(was[Offset(slices, s) + j]) == Some(t)
    modifies slices[s]
    ensures Partly(f, slices, was, Offset(slices, s) + j)
  {
    ghost var k := Offset(slices, s) + j;
    slices[s][j] := t;
    forall r, i | 0 <= r < |slices| && 0 <= i < slices[r].Length
      ensures PartlyAt(f, slices, was, k, r, i)
    {
      assert old(PartlyAt(f, slices, was, k + 1, r, i));
      OffsetUnique(slices, s, j, r, i);
      assert slices[r] == slices[s] ==> r == s;
    }
  }

  /** Prefix products of the concatenation into the buffer. */
  method ForwardProducts<T(==,!new)>(f: Field<T>, slices: seq<array<T>>, buffer: array<T>, ghost was: seq<T>)
    returns (accumulator: T)
    requires Lawful(f) && Holds(slices, was) && buffer !in slices && buffer.Length == |was|
    requires |slices| > 0 && slices[0].Length > 0
    modifies buffer
    ensures accumulator == Product(f, was)
    ensures forall i :: 0 <= i < |was| ==> buffer[i] == Product(f, was[..i])
  {
    hide Lawful, Product;
    assert Offset(slices, 0) == 0 && HoldsAt(slices, was, 0, 0);
    buffer[0] := f.one;
    accumulator := slices[0][0];
    ProductOne(f, was);
    var k := 0;
    for s := 0 to |slices|
      invariant Holds(slices, was) && k == Offset(slices, s) <= |was|
      invariant accumulator == Product(f, was[..if k == 0 then 1 else k])
      invariant forall i :: 0 <= i < k || i == 0 ==> buffer[i] == Product(f, was[..i])
    {
      OffsetOrder(slices, s, |slices|);
      for j := 0 to slices[s].Length
        invariant Holds(slices, was) && k == Offset(slices, s) + j <= |was|
        invariant accumulator == Product(f, was[..if k == 0 then 1 else k])
        invariant forall i :: 0 <= i < k || i == 0 ==> buffer[i] == Product(f, was[..i])
      {
        assert HoldsAt(slices, was, s, j);
        if k > 0 {
          ProductSnoc(f, was, k);
          buffer[k] := accumulator;
          accumulator := f.mul(accumulator, slices[s][j]);
        }
        k := k + 1;
      }
    }
    assert was[..|was|] == was;
  }

  /**
    Several slices at once: panics if the buffer does not match, if there is no first element in the
    first slice, or if an element is zero; otherwise it inverts the concatenation.
   */
  method BatchInverseSlices<T(==,!new)>(f: Field<T>, slices: seq<array<T>>, buffer: array<T>) returns (ok: bool)
    requires Lawful(f) && Distinct(slices) && buffer !in slices
    modifies slices, buffer
    ensures ok <==> buffer.Length == |old(Flat(slices))| && |slices| > 0 && slices[0].Length > 0 && ZeroFree(f, old(Flat(slices)))
    ensures ok ==> Inverses(f, old(Flat(slices)), Flat(slices))
    ensures !ok ==> Flat(slices) == old(Flat(slices))
  {
    hide Lawful, Product, Partly, Flat, Holds, Offset, Inverses;
    ghost var was := Flat(slices);
    FlatAt(slices);
    TotalLength(slices, was);
    if buffer.Length != Offset(slices, |slices|) || |slices| == 0 || slices[0].Length == 0 { return false; }
    var accumulator := ForwardProducts(f, slices, buffer, was);
    ProductZero(f, was);
    InvMul(f, accumulator);
    if f.inv(accumulator).None? { return false; }
    var grand := f.inv(accumulator).value;
    PartlyStart(f, slices, was);
    assert was[..|was|] == was;
    for s := |slices| downto 0
      invariant Offset(slices, s) <= |was| && Partly(f, slices, was, Offset(slices, s))
      invariant f.mul(Product(f, was[..Offset(slices, s)]), grand) == f.one
      invariant forall i :: 0 <= i < |was| ==> buffer[i] == Product(f, was[..i])
    {
      OffsetStep(slices, s);
      for j := slices[s].Length downto 0
        invariant Offset(slices, s) + j <= |was| && Partly(f, slices, was, Offset(slices, s) + j)
        invariant f.mul(Product(f, was[..Offset(slices, s) + j]), grand) == f.one
        invariant forall i :: 0 <= i < |was| ==> buffer[i] == Product(f, was[..i])
      {
        ghost var k := Offset(slices, s) + j;
        StillOld(f, slices, was, s, j);
        ProductSnoc(f, was, k);
        StepBack(f, buffer[Offset(slices, s) + j], slices[s][j], grand);
        var t := f.mul(buffer[Offset(slices, s) + j], grand);
        grand := f.mul(grand, slices[s][j]);
        InvertAt(f, slices, s, j, t, was);
      }
    }
    OffsetZero(slices);
    PartlyEnd(f, slices, was);
    ok := true;
  }

  lemma OffsetStep<T>(slices: seq<array<T>>, s: nat)
    requires s < |slices|
    ensures Offset(slices, s + 1) == Offset(slices, s) + slices[s].Length
  {
  }

  lemma OffsetZero<T>(slices: seq<array<T>>)
    ensures Offset(slices, 0) == 0
  {
  }

  lemma TotalLength<T>(slices: seq<array<T>>, was: seq<T>)
    requires Holds(slices, was)
    ensures |was| == Offset(slices, |slices|)
  {
  }

  lemma StillOld<T(!new)>(f: Field<T>, slices: seq<array<T>>, was: seq<T>, s: nat, j: nat)
    requires s < |slices| && j < slices[s].Length && Partly(f, slices, was, Offset(slices, s) + j + 1)
    ensures Offset(slices, s) + j < |was| && slices[s][j] == was[Offset(slices, s) + j]
  {
    assert PartlyAt(f, slices, was, Offset(slices, s) + j + 1, s, j);
  }

  // ------------------------------------------------------------ chunk by chunk

  /** A schedule of the chunks: every chunk is processed, in any order. */
  ghost predicate Complete(order: seq<nat>, chunks: nat) {
    && (forall n :: 0 <= n < |order| ==> order[n] < chunks)
    && (forall m, n :: 0 <= m < n < |order| ==> order[m] != order[n])
    && (forall c :: 0 <= c < chunks ==> c in order)
  }

  lemma ChunkBounds(g: Geometry, work: nat, c: nat)
    requires g.Covers(work) && c < g.numChunks
    ensures g.ChunkStart(c) + g.ChunkSize(c) <= work
  {
    if c < g.numChunks - 1 { Blocks(g.ordinaryChunkSize, c, g.numChunks - 1); }
  }

  /** The elements of the chunks done so far are inverted, the others are as they were. */
  ghost predicate ChunksDone<T(!new)>(f: Field<T>, g: Geometry, was: seq<T>, s: seq<T>, done: seq<nat>)
    requires g.Covers(|was|)
  {
    && |s| == |was|
    && forall i :: 0 <= i < |was| ==> if g.ChunkOf(i) in done then f.inv(was[i]) == Some(s[i]) else s[i] == was[i]
  }

  ghost predicate ChunkZeroFree<T(!new)>(f: Field<T>, g: Geometry, was: seq<T>, c: nat)
    requires g.Covers(|was|)
  {
    forall i :: 0 <= i < |was| && g.ChunkOf(i) == c ==> was[i] != f.zero
  }

  /** The work of one thread: a chunk of the input with the same chunk of the buffer. */
  method InvertChunk<T(==,!new)>(f: Field<T>, input: array<T>, buffer: array<T>, g: Geometry, c: nat, ghost was: seq<T>, ghost done: seq<nat>)
    returns (ok: bool)
    requires Lawful(f) && input != buffer && input.Length == |was| && g.Covers(|was|)
    requires c < g.numChunks && c !in done && ChunksDone(f, g, was, input[..], done)
    requires g.ChunkStart(c) + g.ChunkSize(c) <= buffer.Length
    modifies input, buffer
    ensures ok <==> ChunkZeroFree(f, g, was, c)
    ensures ok ==> ChunksDone(f, g, was, input[..], done + [c])
  {
    hide Lawful, ChunksDone, ChunkZeroFree, After;
    ChunkBounds(g, input.Length, c);
    var lo, hi := g.ChunkStart(c), g.ChunkStart(c) + g.ChunkSize(c);
    ghost var before, b := input[..], buffer[lo..hi];
    ChunkOld(f, g, was, before, c, lo, hi, done);
    ok := BatchInverseRange(f, input, lo, hi, buffer, lo, hi);
    assert before[lo..hi][..hi - lo] == before[lo..hi];
    if ok {
      AlignedInverts(f, before[lo..hi], b);
      ChunkMerged(f, g, was, before, input[..], c, lo, hi, done);
    }
  }

  lemma ChunkRange(g: Geometry, work: nat, c: nat, i: nat)
    requires g.Covers(work) && c < g.numChunks && i < work
    ensures g.ChunkStart(c) <= i < g.ChunkStart(c) + g.ChunkSize(c) <==> g.ChunkOf(i) == c
  {
    g.Partition(work, i, c);
  }

  lemma ChunkOld<T(!new)>(f: Field<T>, g: Geometry, was: seq<T>, before: seq<T>, c: nat, lo: nat, hi: nat, done: seq<nat>)
    requires g.Covers(|was|) && c < g.numChunks && c !in done && ChunksDone(f, g, was, before, done)
    requires lo == g.ChunkStart(c) && hi == lo + g.ChunkSize(c) <= |was|
    ensures forall i :: lo <= i < hi ==> before[i] == was[i]
    ensures ZeroFree(f, before[lo..hi]) <==> ChunkZeroFree(f, g, was, c)
  {
    forall i | 0 <= i < |was|
      ensures lo <= i < hi <==> g.ChunkOf(i) == c
    {
      ChunkRange(g, |was|, c, i);
    }
    hide Geometry.ChunkOf;
    assert forall i :: lo <= i < hi ==> before[lo..hi][i - lo] == before[i] == was[i];
  }

  lemma ChunkMerged<T(!new)>(f: Field<T>, g: Geometry, was: seq<T>, before: seq<T>, after: seq<T>, c: nat, lo: nat, hi: nat, done: seq<nat>)
    requires g.Covers(|was|) && c < g.numChunks && c !in done && ChunksDone(f, g, was, before, done)
    requires lo == g.ChunkStart(c) && hi == lo + g.ChunkSize(c) <= |was| == |after|
    requires forall i :: lo <= i < hi ==> before[i] == was[i]
    requires Inverses(f, before[lo..hi], after[lo..hi]) && after[..lo] == before[..lo] && after[hi..] == before[hi..]
    ensures ChunksDone(f, g, was, after, done + [c])
  {
    forall i | 0 <= i < |was|
      ensures if g.ChunkOf(i) in done + [c] then f.inv(was[i]) == Some(after[i]) else after[i] == was[i]
    {
      ChunkRange(g, |was|, c, i);
      hide Geometry.ChunkOf;
      if lo <= i < hi {
        assert before[lo..hi][i - lo] == was[i] && after[lo..hi][i - lo] == after[i];
      } else if i < lo {
        assert after[i] == after[..lo][i] == before[..lo][i];
      } else {
        assert after[i] == after[hi..][i - hi] == before[hi..][i - hi];
      }
    }
  }

  /**
    How many chunks of the input find a chunk in the buffer. None stands for the panic when the
    buffer ends inside a chunk; a buffer that ends with a chunk silently leaves the rest of the input.
   */
  method PairChunks(g: Geometry, n: nat, m: nat) returns (r: Option<nat>)
    requires g.Covers(n)
    ensures r.Some? <==> m >= n || exists c :: 0 <= c < g.numChunks && g.ChunkStart(c) == m
    ensures r.Some? && m >= n ==> r.value == g.numChunks
    ensures r.Some? && m < n ==> r.value < g.numChunks && g.ChunkStart(r.value) == m
  {
    hide Geometry.ChunkStart, Geometry.ChunkSize;
    for c := 0 to g.numChunks
      invariant forall d :: 0 <= d < c ==> g.ChunkStart(d) + g.ChunkSize(d) <= m
      invariant forall d :: 0 <= d < c ==> g.ChunkStart(d) < m
    {
      if g.ChunkStart(c) == m {
        ChunkBounds(g, n, c);
        ChunkNonEmpty(g, n, c);
        return Some(c);
      }
      if g.ChunkStart(c) + g.ChunkSize(c) > m {
        forall d | c < d < g.numChunks
          ensures g.ChunkStart(d) > m
        {
          ChunksInOrder(g, n, c, d);
        }
        ChunkBounds(g, n, c);
        StartsInOrder(g, n, c, m);
        return None;
      }
      ChunkNonEmpty(g, n, c);
    }
    LastChunkEnds(g, n);
    r := Some(g.numChunks);
  }

  lemma ChunkNonEmpty(g: Geometry, work: nat, c: nat)
    requires g.Covers(work) && c < g.numChunks
    ensures g.ChunkSize(c) > 0
  {
  }

  lemma ChunksInOrder(g: Geometry, work: nat, c: nat, d: nat)
    requires g.Covers(work) && c < d < g.numChunks
    ensures g.ChunkStart(c) + g.ChunkSize(c) <= g.ChunkStart(d)
  {
    Blocks(g.ordinaryChunkSize, c, d);
  }

  lemma StartsInOrder(g: Geometry, work: nat, c: nat, m: nat)
    requires g.Covers(work) && c < g.numChunks && g.ChunkStart(c) != m && m < g.ChunkStart(c) + g.ChunkSize(c)
    requires forall d :: 0 <= d < c ==> g.ChunkStart(d) < m
    ensures forall d :: 0 <= d < g.numChunks ==> g.ChunkStart(d) != m
  {
    hide Geometry.ChunkStart, Geometry.ChunkSize;
    forall d | c < d < g.numChunks
      ensures g.ChunkStart(d) != m
    {
      ChunksInOrder(g, work, c, d);
    }
  }

  lemma LastChunkEnds(g: Geometry, work: nat)
    requires g.Covers(work)
    ensures g.ChunkStart(g.numChunks - 1) + g.ChunkSize(g.numChunks - 1) == work
  {
  }

  /**
    Each chunk is inverted on its own, with the chunk of the buffer at the same place. An empty
    input panics in the geometry, unlike in the serial form. With a buffer at least as long as the
    input the result is the serial one, whatever the number of cores and the order of the chunks.
    A shorter one panics, or ends with a chunk and then exactly its length is inverted.
   */
  method BatchInverseParallel<T(==,!new)>(f: Field<T>, input: array<T>, buffer: array<T>, numCores: nat, order: seq<nat>)
    returns (ok: bool, ghost g: Geometry)
    requires Lawful(f) && input != buffer && numCores > 0
    requires Complete(order, if numCores < input.Length then numCores else input.Length)
    modifies input, buffer
    ensures input.Length == 0 ==> !ok
    ensures input.Length > 0 ==> g.Covers(input.Length)
    ensures var n, m := input.Length, Paired(input.Length, buffer.Length);
            n > 0 ==> (ok <==> ZeroFree(f, old(input[..])[..m]) && (m == n || exists c :: 0 <= c < g.numChunks && g.ChunkStart(c) == m))
    ensures var m := Paired(input.Length, buffer.Length);
            ok ==> Inverses(f, old(input[..])[..m], input[..m]) && input[m..] == old(input[..])[m..]
  {
    hide Lawful, Geometry.Covers, Geometry.ChunkOf, Geometry.ChunkStart, Geometry.ChunkSize;
    ghost var was := input[..];
    var panicked, geometry, t, share := GeometryForCores(numCores, input.Length);
    g := geometry;
    if panicked { return false, g; }
    ghost var m := Paired(input.Length, buffer.Length);
    var chunks := PairChunks(geometry, input.Length, buffer.Length);
    if chunks.None? { return false, g; }
    ChunkOfBound(g, |was|);
    ghost var done: seq<nat> := [];
    for n := 0 to |order|
      invariant ChunksDone(f, g, was, input[..], done)
      invariant forall c :: c in done <==> c in order[..n] && c < chunks.value
      invariant forall c :: c in done ==> ChunkZeroFree(f, g, was, c)
    {
      var c := order[n];
      assert c !in order[..n];
      assert order[..n + 1] == order[..n] + [c];
      if c < chunks.value {
        ChunkPaired(g, |was|, buffer.Length, chunks.value, c);
        ok := InvertChunk(f, input, buffer, geometry, c, was, done);
        if !ok {
          NotZeroFree(f, g, was, c, m, chunks.value);
          return false, g;
        }
        done := done + [c];
      }
    }
    assert order[..|order|] == order;
    AllPaired(f, g, was, input[..], done, m, chunks.value);
    ok := true;
  }

  lemma ChunkPaired(g: Geometry, n: nat, m: nat, k: nat, c: nat)
    requires g.Covers(n) && c < k <= g.numChunks && (m >= n || (k < g.numChunks && g.ChunkStart(k) == m))
    ensures g.ChunkStart(c) + g.ChunkSize(c) <= m
  {
    hide Geometry.ChunkStart, Geometry.ChunkSize;
    ChunkBounds(g, n, c);
    if m < n { ChunksInOrder(g, n, c, k); }
  }

  /** The first `k` chunks are the first `m` positions. */
  lemma PairedPositions(g: Geometry, n: nat, m: nat, k: nat, i: nat)
    requires g.Covers(n) && k <= g.numChunks && i < n && m <= n
    requires (m == n && k == g.numChunks) || (k < g.numChunks && g.ChunkStart(k) == m)
    ensures g.ChunkOf(i) < k <==> i < m
  {
    ChunkOfBound(g, n);
    hide Geometry.ChunkStart, Geometry.ChunkSize, Geometry.ChunkOf;
    var c := g.ChunkOf(i);
    ChunkRange(g, n, c, i);
    if c < k < g.numChunks { ChunksInOrder(g, n, c, k); }
    if k < c { ChunksInOrder(g, n, k, c); }
  }

  lemma NotZeroFree<T(!new)>(f: Field<T>, g: Geometry, was: seq<T>, c: nat, m: nat, k: nat)
    requires g.Covers(|was|) && c < k <= g.numChunks && m <= |was| && !ChunkZeroFree(f, g, was, c)
    requires (m == |was| && k == g.numChunks) || (k < g.numChunks && g.ChunkStart(k) == m)
    ensures !ZeroFree(f, was[..m])
  {
    hide Geometry.ChunkStart, Geometry.ChunkOf;
    var i :| 0 <= i < |was| && g.ChunkOf(i) == c && was[i] == f.zero;
    PairedPositions(g, |was|, m, k, i);
    assert was[..m][i] == f.zero;
  }

  lemma AllPaired<T(!new)>(f: Field<T>, g: Geometry, was: seq<T>, s: seq<T>, done: seq<nat>, m: nat, k: nat)
    requires g.Covers(|was|) && k <= g.numChunks && m <= |was| && ChunksDone(f, g, was, s, done)
    requires (m == |was| && k == g.numChunks) || (k < g.numChunks && g.ChunkStart(k) == m)
    requires forall c :: c in done <==> 0 <= c < k
    requires forall c :: c in done ==> ChunkZeroFree(f, g, was, c)
    ensures ZeroFree(f, was[..m]) && Inverses(f, was[..m], s[..m]) && s[m..] == was[m..]
  {
    hide Geometry.ChunkStart, Geometry.ChunkOf, Geometry.Covers;
    forall i | 0 <= i < |was|
      ensures if i < m then was[i] != f.zero && f.inv(was[i]) == Some(s[i]) else s[i] == was[i]
    {
      PairedPositions(g, |was|, m, k, i);
    }
  }

  lemma ChunkOfBound(g: Geometry, work: nat)
    requires g.Covers(work)
    ensures forall i: nat :: g.ChunkOf(i) < g.numChunks
  {
  }
}
