/** The default interner: byte strings to `u32` keys and back. */
module Interning {
  import opened Base

  /** A `NonZeroU32`: the niche shifts every index up by one. */
  type TokenKey = k: int | 1 <= k <= U32_MAX witness 1

  datatype InternerError = KeySpaceExhausted | InvalidData

  function IntoU32(key: TokenKey): u32 {
    key - 1
  }

  function TryFromU32(raw: u32): Option<TokenKey> {
    if raw < U32_MAX then Some(raw + 1) else None
  }

  /** The two conversions are inverse, and only `u32::MAX` has no key. */
  lemma KeyRoundTrip(key: TokenKey, raw: u32)
    ensures TryFromU32(IntoU32(key)) == Some(key)
    ensures TryFromU32(raw).None? <==> raw == U32_MAX
    ensures TryFromU32(raw).Some? ==> IntoU32(TryFromU32(raw).value) == raw
  {
  }

  /** The abstract value of a `TokenInterner`. */
  datatype Interner = Interner(keys: map<bytes, TokenKey>, values: seq<bytes>) {

    /** `keys` and `values` are mutually inverse and stay inside the key space. */
    ghost predicate Valid() {
      && |values| <= U32_MAX
      && (forall b | b in keys :: IntoU32(keys[b]) < |values| && values[IntoU32(keys[b])] == b)
      && (forall i | 0 <= i < |values| :: values[i] in keys && IntoU32(keys[values[i]]) == i)
    }

    function TryResolve(key: TokenKey): Option<bytes> {
      if IntoU32(key) < |values| then Some(values[IntoU32(key)]) else None
    }
  }

  const EMPTY_INTERNER := Interner(map[], [])

  function Intern(valid: bytes -> bool, s: Interner, b: bytes): (Result<TokenKey, InternerError>, Interner) {
    if b in s.keys then (Ok(s.keys[b]), s)
    else if |s.values| >= U32_MAX then (Err(KeySpaceExhausted), s)
    else if !valid(b) then (Err(InvalidData), s)
    else match TryFromU32(|s.values|)
      case None => (Err(KeySpaceExhausted), s)
      case Some(key) => (Ok(key), Interner(s.keys[b := key], s.values + [b]))
  }

  /** Interning keeps keys and values mutually inverse; the returned key resolves to the bytes
      given; no earlier key ever resolves differently; equal keys mean equal bytes; and the call
      fails exactly when the bytes are new and either the 2^32 - 1 keys are used up or the bytes
      are not a valid payload. */
  lemma InternIsInverse(valid: bytes -> bool, s: Interner, b: bytes)
    requires s.Valid()
    ensures var (r, t) := Intern(valid, s, b);
      && t.Valid()
      && (r.Ok? <==> b in s.keys || (|s.values| < U32_MAX && valid(b)))
      && (r.Err? ==> t == s && (r.error.KeySpaceExhausted? <==> |s.values| == U32_MAX))
      && (r.Ok? ==> t.TryResolve(r.value) == Some(b))
      && (forall k: TokenKey | s.TryResolve(k).Some? :: t.TryResolve(k) == s.TryResolve(k))
      && (r.Ok? ==> forall k: TokenKey | t.TryResolve(k) == Some(b) :: k == r.value)
      && s.values <= t.values && |t.values| <= |s.values| + 1
  {
    var (r, t) := Intern(valid, s, b);
    if t != s {
      forall c | c in t.keys ensures IntoU32(t.keys[c]) < |t.values| && t.values[IntoU32(t.keys[c])] == c {
        if c != b { assert c in s.keys; }
      }
      forall i | 0 <= i < |t.values| ensures t.values[i] in t.keys && IntoU32(t.keys[t.values[i]]) == i {
        if i < |s.values| { assert t.values[i] == s.values[i] && s.values[i] in s.keys; }
      }
    }
    if r.Ok? {
      forall k: TokenKey | t.TryResolve(k) == Some(b) ensures k == r.value {
        assert t.values[IntoU32(k)] == b;
        assert IntoU32(t.keys[b]) == IntoU32(k);
      }
    }
  }

  class TokenInterner {
    const valid: bytes -> bool
    var keys: map<bytes, TokenKey>
    var values: seq<bytes>

    ghost function View(): Interner
      reads this
    {
      Interner(keys, values)
    }

    constructor (valid: bytes -> bool)
      ensures this.valid == valid && View() == EMPTY_INTERNER && View().Valid()
    {
      this.valid := valid;
      keys, values := map[], [];
    }

    method TryGetOrInternBytes(b: bytes) returns (r: Result<TokenKey, InternerError>)
      requires View().Valid()
      modifies this
      ensures (r, View()) == Intern(valid, old(View()), b)
      ensures View().Valid()
    {
      InternIsInverse(valid, View(), b);
      if b in keys {
        return Ok(keys[b]);
      } else if |values| >= U32_MAX {
        return Err(KeySpaceExhausted);
      }
      if !valid(b) {
        return Err(InvalidData);
      }
      var index := |values|;
      var key := TryFromU32(index);
      match key {
        case None =>
          return Err(KeySpaceExhausted);
        case Some(k) =>
          values := values + [b];
          keys := keys[b := k];
          return Ok(k);
      }
    }

    method TryResolve(key: TokenKey) returns (r: Option<bytes>)
      ensures r == View().TryResolve(key)
    {
      r := if IntoU32(key) < |values| then Some(values[IntoU32(key)]) else None;
    }
  }
}
