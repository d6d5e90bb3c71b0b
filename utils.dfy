/**
 * Small helpers of the firmware: a linear congruential random number
 * generator over a 32-bit global seed, and the newlib write hook that copies
 * a character buffer to the ITM stimulus port, turning each line feed into a
 * line feed followed by a carriage return.
 */
module Utils {

  const Word: nat := 0x1_0000_0000
  const RandA: nat := 1103515245
  const RandC: nat := 12345
  /** The modulus: 2^31. */
  const RandM: nat := 0x8000_0000
  const InitialSeed: nat := 1234567890

  /** Reduction modulo 2^32, as unsigned 32-bit arithmetic does after every operation. */
  function Wrap32(x: int): (r: nat)
    ensures r < Word
  {
    x % Word
  }

  /** Reducing modulo 2^32 first does not change a remainder modulo 2^31. */
  lemma WrapThenMod(x: int)
    ensures Wrap32(x) % RandM == x % RandM
  {
    var q := x / Word;
    var r := Wrap32(x);
    assert x == Word * q + r;
    var t := r / RandM;
    assert r == RandM * t + r % RandM;
    assert x == RandM * (2 * q + t) + r % RandM;
  }

  /**
   * The seed update of rand(): a*seed and the addition of c both wrap at
   * 2^32, and the result is reduced modulo 2^31; it equals the textbook
   * (a*seed + c) mod 2^31 and is below 2^31.
   */
  function NextSeed(seed: nat): (r: nat)
    requires seed < Word
    ensures r < RandM
    ensures r == (RandA * seed + RandC) % RandM
  {
    var product := Wrap32(RandA * seed);
    WrapThenMod(product + RandC);
    WrapThenMod(RandA * seed);
    assert (product + RandC) % RandM == (RandA * seed + RandC) % RandM by {
      var q := (RandA * seed) / Word;
      assert RandA * seed + RandC == product + RandC + RandM * (2 * q);
      ModShift(product + RandC, 2 * q);
    }
    Wrap32(product + RandC) % RandM
  }

  /** Adding a multiple of 2^31 does not change a remainder modulo 2^31. */
  lemma ModShift(x: int, k: int)
    ensures (x + RandM * k) % RandM == x % RandM
  {
    var t := x / RandM;
    assert x == RandM * t + x % RandM;
    assert x + RandM * k == RandM * (t + k) + x % RandM;
  }

  /** The global rand_seed. */
  class Rng {
    var seed: nat

    ghost predicate Valid()
      reads this
    {
      seed < Word
    }

    constructor ()
      ensures Valid() && seed == InitialSeed
    {
      seed := InitialSeed;
    }

    /** rand(): replace the seed by its successor and return it. */
    method Rand() returns (r: nat)
      requires Valid()
      modifies this
      ensures Valid()
      ensures seed == NextSeed(old(seed)) && r == seed
    {
      seed := Wrap32(Wrap32(RandA * seed) + RandC) % RandM;
      r := seed;
    }
  }

  /** The C loop cannot run off the buffer: len fits in it, or a NUL stops the copy first. */
  predicate Terminated(ptr: seq<char>, len: int) {
    len <= |ptr| || '\0' in ptr
  }

  /** How many characters _write takes: the least i with i == len or ptr[i] == NUL (0 when len <= 0). */
  function Consumed(ptr: seq<char>, len: int): (n: nat)
    requires Terminated(ptr, len)
    ensures n <= |ptr|
    ensures len <= 0 ==> n == 0
    ensures len > 0 ==> n <= len
    ensures forall j :: 0 <= j < n ==> ptr[j] != '\0'
    ensures n < len ==> n < |ptr| && ptr[n] == '\0'
  {
    if len <= 0 || ptr[0] == '\0' then 0
    else 1 + Consumed(ptr[1..], len - 1)
  }

  /** The characters sent for one input character. */
  function Emit(c: char): (r: seq<char>)
    ensures 0 < |r| <= 2 && r[0] == c
    ensures |r| == 2 <==> c == '\n'
    ensures |r| == 2 ==> r[1] == '\r'
  {
    if c == '\n' then ['\n', '\r'] else [c]
  }

  /** The characters sent for a string. */
  function Expand(s: seq<char>): (r: seq<char>)
    ensures |r| >= |s|
    ensures forall i :: 0 <= i < |r| && r[i] == '\n' ==> i + 1 < |r| && r[i + 1] == '\r'
  {
    if s == [] then [] else Emit(s[0]) + Expand(s[1..])
  }

  /** Drops the carriage return that follows each line feed. */
  function Collapse(r: seq<char>): seq<char> {
    if r == [] then []
    else if r[0] == '\n' && |r| > 1 && r[1] == '\r' then ['\n'] + Collapse(r[2..])
    else [r[0]] + Collapse(r[1..])
  }

  /** Nothing but the input is sent, in order: removing the inserted carriage returns gives it back. */
  lemma {:induction false} CollapseExpand(s: seq<char>)
    ensures Collapse(Expand(s)) == s
  {
    if s != [] {
      CollapseExpand(s[1..]);
      var r := Expand(s);
      assert r == Emit(s[0]) + Expand(s[1..]);
      if s[0] == '\n' {
        assert r[2..] == Expand(s[1..]);
      } else {
        assert r[1..] == Expand(s[1..]);
      }
    }
  }

  lemma {:induction false} ExpandAppend(s: seq<char>, c: char)
    ensures Expand(s + [c]) == Expand(s) + Emit(c)
  {
    if s != [] {
      assert (s + [c])[1..] == s[1..] + [c];
      ExpandAppend(s[1..], c);
    } else {
      assert Expand([c]) == Emit(c) + Expand([]);
    }
  }

  /**
   * _write: with ITM output compiled in, sends the characters of ptr up to
   * len or the first NUL, each line feed followed by a carriage return, and
   * returns how many input characters it took; without it, sends nothing and
   * returns 0. The channel argument does not affect what is sent.
   */
  method Write(itmEnabled: bool, fd: int, ptr: seq<char>, len: int) returns (n: int, emitted: seq<char>)
    requires Terminated(ptr, len)
    ensures itmEnabled ==> n == Consumed(ptr, len) && emitted == Expand(ptr[..n])
    ensures !itmEnabled ==> n == 0 && emitted == []
  {
    n := 0;
    emitted := [];
    if itmEnabled {
      while n < len && ptr[n] != '\0'
        invariant 0 <= n <= Consumed(ptr, len)
        invariant emitted == Expand(ptr[..n])
      {
        assert ptr[..n + 1] == ptr[..n] + [ptr[n]];
        ExpandAppend(ptr[..n], ptr[n]);
        emitted := emitted + [ptr[n]];
        if ptr[n] == '\n' {
          emitted := emitted + ['\r'];
        }
        n := n + 1;
      }
    }
  }
}
