/** Machine integers, byte strings and the small datatypes shared by every module. */
module Base {

  const U32_MAX: int := 0xFFFF_FFFF

  const TWO32: int := 0x1_0000_0000

  type u32 = x: int | 0 <= x < 0x1_0000_0000

  newtype byte = x: int | 0 <= x < 256

  type bytes = seq<byte>

  datatype Option<+T> = None | Some(value: T)

  datatype Result<+T, +E> = Ok(value: T) | Err(error: E)

  /** Release-profile `u32` arithmetic and `as u32` casts keep the residue modulo 2^32. */
  function Wrap(x: int): u32 {
    x % 0x1_0000_0000
  }

  lemma WrapSmall(x: int)
    requires 0 <= x < TWO32
    ensures Wrap(x) == x
  {
  }

  lemma WrapAdd(x: int, y: int)
    ensures Wrap(Wrap(x) + Wrap(y)) == Wrap(x + y)
    ensures Wrap(Wrap(x) + y) == Wrap(x + y)
    ensures Wrap(x + Wrap(y)) == Wrap(x + y)
  {
    var a, b := x / TWO32, y / TWO32;
    assert x == a * TWO32 + Wrap(x) && y == b * TWO32 + Wrap(y);
    WrapShift(Wrap(x) + Wrap(y), a + b);
    WrapShift(Wrap(x) + y, a);
    WrapShift(x + Wrap(y), b);
  }

  lemma WrapShift(x: int, k: int)
    ensures Wrap(x + k * TWO32) == Wrap(x)
  {
    var q := x / TWO32;
    assert x + k * TWO32 == (q + k) * TWO32 + Wrap(x);
  }

  /** `fetch_add(k)` and `fetch_sub(1)` on a `u32`. */
  function WrappingAdd(a: u32, k: u32): u32 {
    if a + k < 0x1_0000_0000 then a + k else a + k - 0x1_0000_0000
  }

  function WrappingDec(a: u32): u32 {
    if a == 0 then U32_MAX else a - 1
  }

  lemma WrappingIsWrap(x: int, k: u32)
    ensures WrappingAdd(Wrap(x), k) == Wrap(x + k)
    ensures WrappingDec(Wrap(x)) == Wrap(x - 1)
  {
    WrapAdd(x, k);
    WrapAdd(x, -1);
    var y := Wrap(x) + k;
    if y < TWO32 { WrapSmall(y); } else { WrapSmall(y - TWO32); WrapShift(y - TWO32, 1); }
    if Wrap(x) == 0 { WrapSmall(U32_MAX); WrapShift(U32_MAX, -1); } else { WrapSmall(Wrap(x) - 1); }
  }

  // ----- sequences

  lemma Associate<T>(a: seq<T>, b: seq<T>, c: seq<T>)
    ensures (a + b) + c == a + (b + c)
  {
  }

  /** Every function that maps a list element by element and joins the results distributes over
      concatenation. */
  lemma {:induction false} JoinedMapConcat<A(!new), B>(f: seq<A> -> seq<B>, each: A -> seq<B>, a: seq<A>, b: seq<A>)
    requires f([]) == [] && forall s | s != [] :: f(s) == f(s[..|s| - 1]) + each(s[|s| - 1])
    ensures f(a + b) == f(a) + f(b)
    decreases |b|
  {
    if b == [] {
      assert a + b == a;
    } else {
      var front, last := b[..|b| - 1], b[|b| - 1];
      assert (a + b)[..|a + b| - 1] == a + front && (a + b)[|a + b| - 1] == last;
      JoinedMapConcat(f, each, a, front);
      Associate(f(a), f(front), each(last));
    }
  }

  /** The same for a recursion from the front of the list. */
  lemma {:induction false} MapJoinedConcat<A(!new), B>(f: seq<A> -> seq<B>, each: A -> seq<B>, a: seq<A>, b: seq<A>)
    requires f([]) == [] && forall s | s != [] :: f(s) == each(s[0]) + f(s[1..])
    ensures f(a + b) == f(a) + f(b)
    decreases |a|
  {
    if a == [] {
      assert a + b == b;
    } else {
      assert (a + b)[1..] == a[1..] + b;
      MapJoinedConcat(f, each, a[1..], b);
      Associate(each(a[0]), f(a[1..]), f(b));
    }
  }

  /** And for sums. */
  lemma {:induction false} SummedMapConcat<A(!new)>(f: seq<A> -> nat, each: A -> nat, a: seq<A>, b: seq<A>)
    requires f([]) == 0 && forall s | s != [] :: f(s) == f(s[..|s| - 1]) + each(s[|s| - 1])
    ensures f(a + b) == f(a) + f(b)
    decreases |b|
  {
    if b == [] {
      assert a + b == a;
    } else {
      assert (a + b)[..|a + b| - 1] == a + b[..|b| - 1];
      SummedMapConcat(f, each, a, b[..|b| - 1]);
    }
  }
}
