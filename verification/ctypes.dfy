/** C scalar types of the RV32 target and NUL-terminated strings, shared by
    the models of syscalls.c and stdlib.c. */
module CTypes {

  /** A C `char`: one byte. Plain `char` is unsigned on RISC-V. */
  type CChar = c: char | c as int < 256 witness '\0'

  const NUL: CChar := '\0'

  const INT_MIN: int := -0x8000_0000
  const INT_MAX: int := 0x7FFF_FFFF
  const UINT_MAX: int := 0xFFFF_FFFF

  /** `int` on RV32. */
  type Int32 = v: int | INT_MIN <= v <= INT_MAX

  /** `unsigned int` and `size_t` on RV32. */
  type UInt32 = v: int | 0 <= v <= UINT_MAX

  /** NULL, or a pointer given as an offset. */
  datatype Option<+T> = None | Some(value: T)

  /** The conversion `(char) v` / `(unsigned char) v`: reduction modulo 256. */
  function ToCChar(v: int): CChar
  {
    (v % 256) as char
  }

  /** A buffer that holds a C string: a NUL occurs somewhere in it. */
  predicate Terminated(s: seq<CChar>)
  {
    NUL in s
  }

  /** The position of the first NUL, that is, the length of the C string
      stored at the start of `s`. */
  function NulIndex(s: seq<CChar>): (n: nat)
    requires Terminated(s)
    ensures n < |s| && s[n] == NUL
    ensures NUL !in s[..n]
    decreases |s|
  {
    if s[0] == NUL then 0
    else
      TailTerminated(s);
      var n := NulIndex(s[1..]) + 1;
      assert s[..n] == [s[0]] + s[1..][..n - 1];
      n
  }

  /** The characters of the C string stored at the start of `s`, without its NUL. */
  function Content(s: seq<CChar>): seq<CChar>
    requires Terminated(s)
  {
    s[..NulIndex(s)]
  }

  /** Stepping a string pointer past a non-NUL character keeps it a C string. */
  lemma TailTerminated(s: seq<CChar>)
    requires Terminated(s) && s[0] != NUL
    ensures Terminated(s[1..])
  {
    var i :| 0 <= i < |s| && s[i] == NUL;
    assert s[1..][i - 1] == NUL;
  }

  /** The string after a non-NUL first character is that character followed by
      the string at the next position. */
  lemma ContentCons(s: seq<CChar>)
    requires Terminated(s) && s[0] != NUL
    ensures Terminated(s[1..])
    ensures Content(s) == [s[0]] + Content(s[1..])
  {
    TailTerminated(s);
    assert NulIndex(s) == NulIndex(s[1..]) + 1;
  }

  /** A text followed by a NUL is a C string whose content is that text. */
  lemma {:induction false} ContentOfText(t: seq<CChar>)
    requires NUL !in t
    ensures Terminated(t + [NUL]) && Content(t + [NUL]) == t
    decreases |t|
  {
    var s := t + [NUL];
    assert s[|t|] == NUL;
    if t != [] {
      assert s[1..] == t[1..] + [NUL];
      ContentOfText(t[1..]);
      ContentCons(s);
    }
  }

  /** A NUL at `n` with none before it makes `n` the string's length. */
  lemma NulIndexAt(s: seq<CChar>, n: nat)
    requires n < |s| && s[n] == NUL
    requires forall k :: 0 <= k < n ==> s[k] != NUL
    ensures Terminated(s) && NulIndex(s) == n
  {
    assert s[n] in s;
    var m := NulIndex(s);
    if m > n {
      assert false;
    }
  }

  /** The first character decides whether the string is empty. */
  lemma ContentHead(s: seq<CChar>)
    requires Terminated(s)
    ensures s[0] == NUL <==> Content(s) == []
    ensures s[0] != NUL ==> Content(s)[0] == s[0]
  {
    if s[0] != NUL {
      ContentCons(s);
    }
  }
}
