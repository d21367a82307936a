/** Shared vocabulary of the P1 decoder model: bytes, the optional-value
    wrapper and the `take_while(..).count()` scan the reader is built on. */
module Common {

  /** An unsigned 8-bit value as read from the serial port (Rust `u8`). */
  type byte = bv8

  /** An unsigned 16-bit value (Rust `u16`). */
  type u16 = bv16

  /** Frame start marker `/`. */
  const Slash: byte := 0x2F
  /** Frame body terminator `!`. */
  const Bang: byte := 0x21
  /** The sign Rust's `from_str_radix` tolerates in front of the digits. */
  const Plus: byte := 0x2B

  datatype Option<+T> = None | Some(value: T)

  function Min(x: nat, y: nat): (m: nat)
    ensures m <= x && m <= y
    ensures m == x || m == y
  {
    if x <= y then x else y
  }

  /** The number of leading bytes of `s` that are not in `stops`: the
      `iter().take_while(|b| !stops.contains(b)).count()` of the reader. */
  function PrefixLen(s: seq<byte>, stops: set<byte>): (n: nat)
    ensures n <= |s|
  {
    if |s| == 0 || s[0] in stops then 0 else 1 + PrefixLen(s[1..], stops)
  }

  /** What `PrefixLen` counts: every byte before it is kept, and the byte at
      it, if any, is a stop. */
  lemma {:induction false} PrefixLenStops(s: seq<byte>, stops: set<byte>)
    ensures forall i :: 0 <= i < PrefixLen(s, stops) ==> s[i] !in stops
    ensures PrefixLen(s, stops) < |s| ==> s[PrefixLen(s, stops)] in stops
  {
    if |s| > 0 && s[0] !in stops {
      PrefixLenStops(s[1..], stops);
      forall i | 0 <= i < PrefixLen(s, stops)
        ensures s[i] !in stops
      {
        if i > 0 {
          assert s[i] == s[1..][i - 1];
        }
      }
    }
  }

  /** The two clauses of `PrefixLenStops` pin down its value. */
  lemma {:induction false} PrefixLenUnique(s: seq<byte>, stops: set<byte>, k: nat)
    requires k <= |s|
    requires forall i :: 0 <= i < k ==> s[i] !in stops
    requires k < |s| ==> s[k] in stops
    ensures PrefixLen(s, stops) == k
  {
    if k > 0 {
      assert s[0] !in stops;
      PrefixLenUnique(s[1..], stops, k - 1);
    }
  }

  /** Scanning a concatenation: the scan stops inside `a` when `a` holds a
      stop byte, and otherwise carries on into `b`. This is what makes the
      reader's per-chunk scans add up to one scan of the flat stream. */
  lemma PrefixLenConcat(a: seq<byte>, b: seq<byte>, stops: set<byte>)
    ensures PrefixLen(a + b, stops)
         == if PrefixLen(a, stops) < |a| then PrefixLen(a, stops) else |a| + PrefixLen(b, stops)
  {
    var na := PrefixLen(a, stops);
    PrefixLenStops(a, stops);
    PrefixLenStops(b, stops);
    if na < |a| {
      PrefixLenUnique(a + b, stops, na);
    } else {
      var nb := PrefixLen(b, stops);
      forall i | 0 <= i < |a| + nb
        ensures (a + b)[i] !in stops
      {
        if i >= |a| {
          assert (a + b)[i] == b[i - |a|];
        }
      }
      if |a| + nb < |a + b| {
        assert (a + b)[|a| + nb] == b[nb];
      }
      PrefixLenUnique(a + b, stops, |a| + nb);
    }
  }
}
