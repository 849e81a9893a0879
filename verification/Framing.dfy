/** Cutting a stream of bytes into message heads, and the capacity that a growing buffer needs for it. */
module Framing {
  import opened Bounds
  import opened Text

  /** The length of the first head, its empty line included, or 0 if there is none yet. */
  function HeadLength(s: string): (n: nat)
    ensures n <= |s| && (n > 0 ==> n >= 4)
  {
    var i := IndexOf(s, SEP);
    if i < |s| then assert SEP <= s[i..] by { IndexIsFirst(s, SEP); } i + 4 else 0
  }

  /** A stream cut greedily behind each first empty line. What is behind the last one is no head. */
  function Split(s: string): seq<string>
    decreases |s|
  {
    var n := HeadLength(s);
    if n == 0 then [] else [s[..n]] + Split(s[n..])
  }

  /** A head goes up to and including the first empty line of the bytes. */
  lemma HeadLengthIff(s: string, n: nat)
    requires 4 <= n <= |s|
    ensures HeadLength(s) == n <==>
      s[n - 4..n] == "\r\n\r\n" && forall j :: 0 <= j < n - 4 ==> !("\r\n\r\n" <= s[j..])
  {
    IndexIsFirst(s, SEP);
    assert s[n - 4..][..4] == s[n - 4..n];
    if s[n - 4..n] == SEP && forall j :: 0 <= j < n - 4 ==> !(SEP <= s[j..]) {
      IndexIs(s, SEP, n - 4);
    }
  }

  lemma HeadEndsInBreak(s: string)
    requires HeadLength(s) > 0
    ensures s[..HeadLength(s)][HeadLength(s) - 2..] == CRLF
  {
    IndexIsFirst(s, SEP);
    var i := IndexOf(s, SEP);
    assert s[i..][..4] == SEP;
    assert s[..i + 4][i + 2..] == s[i..][..4][2..];
  }

  /** A head taken by itself is its own first head: its only empty line is its end. */
  lemma HeadIsItsOwnHead(s: string)
    requires HeadLength(s) > 0
    ensures HeadLength(s[..HeadLength(s)]) == HeadLength(s)
  {
    IndexIsFirst(s, SEP);
    var i := IndexOf(s, SEP);
    var head := s[..i + 4];
    assert head[i..] == s[i..][..4] == SEP;
    forall j | 0 <= j < i ensures !(SEP <= head[j..]) {
      assert s[j..][..|head| - j] == head[j..];
    }
    IndexIs(head, SEP, i);
  }

  lemma HeadLengthStable(s: string, t: string)
    requires HeadLength(s) > 0
    ensures HeadLength(s + t) == HeadLength(s)
  {
    IndexStable(s, t, SEP);
  }

  /** More bytes complete a head only at a place behind those that had none. */
  lemma HeadEndsBehind(s: string, t: string)
    requires HeadLength(s) == 0 && HeadLength(s + t) > 0
    ensures HeadLength(s + t) > |s|
  {
    var n := HeadLength(s + t);
    if n <= |s| {
      var head := (s + t)[..n];
      assert head == s[..n] && head + s[n..] == s;
      HeadIsItsOwnHead(s + t);
      HeadLengthStable(head, s[n..]);
    }
  }

  /** The capacity that doubling `c` reaches for `n` bytes. */
  function Fit(c: nat, n: nat): (f: nat)
    requires c > 0
    ensures f >= n && f >= c
    ensures f <= Max(c, 2 * n)
    decreases n - c
  {
    if c >= n then c else Fit(2 * c, n)
  }

  function Doubled(c: nat, k: nat): nat
    decreases k
  {
    if k == 0 then c else Doubled(2 * c, k - 1)
  }

  /** It is the least doubling of `c` that holds `n` bytes. */
  lemma {:induction false} FitIsLeast(c: nat, n: nat) returns (k: nat)
    requires c > 0
    ensures Fit(c, n) == Doubled(c, k) >= n
    ensures forall j: nat :: j < k ==> Doubled(c, j) < n
    decreases n - c
  {
    if c >= n {
      k := 0;
    } else {
      var m := FitIsLeast(2 * c, n);
      k := m + 1;
      forall j: nat | j < k ensures Doubled(c, j) < n {
        assert j > 0 ==> Doubled(c, j) == Doubled(2 * c, j - 1);
      }
    }
  }
}
