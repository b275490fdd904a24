/** skip_trailing_space of m_string.h: the end of a string without its trailing spaces, found a word
    at a time where the address allows it. Addresses are numbers; the string occupies the addresses
    from ptr up to ptr + length, and index a - ptr of the buffer holds the byte at address a. */
module TrailingSpace {

  type uchar = x: int | 0 <= x < 0x100

  const SPACE: uchar := ' ' as int
  const SIZEOF_INT: int := 4
  const SPACE_INT: int := 0x2020_2020

  /** The byte-by-byte loop: the length of s[..n] without trailing spaces. */
  function Trimmed(s: seq<uchar>, n: nat): (m: nat)
    requires n <= |s|
    ensures m <= n
  {
    if n > 0 && s[n - 1] == SPACE then Trimmed(s, n - 1) else n
  }

  /** It is the one position behind which there are only spaces and before which there is none. */
  lemma {:induction false} TrimmedExactly(s: seq<uchar>, n: nat, m: nat)
    requires m <= n <= |s|
    ensures m == Trimmed(s, n) <==> (forall i :: m <= i < n ==> s[i] == SPACE) && (m > 0 ==> s[m - 1] != SPACE)
  {
    if n == 0 {
    } else if s[n - 1] == SPACE && m < n {
      TrimmedExactly(s, n - 1, m);
    }
  }

  /** Trailing spaces can be dropped in any portions. */
  lemma TrimmedInPortions(s: seq<uchar>, n: nat, k: nat)
    requires k <= n <= |s| && forall i :: k <= i < n ==> s[i] == SPACE
    ensures Trimmed(s, k) == Trimmed(s, n)
  {
    TrimmedExactly(s, k, Trimmed(s, k));
    TrimmedExactly(s, n, Trimmed(s, k));
  }

  /** The unsigned int in four bytes, least significant first. */
  function WordOf(a: uchar, b: uchar, c: uchar, d: uchar): int {
    a + 0x100 * (b + 0x100 * (c + 0x100 * d))
  }

  lemma SpaceWord(a: uchar, b: uchar, c: uchar, d: uchar)
    ensures WordOf(a, b, c, d) == SPACE_INT <==> a == SPACE && b == SPACE && c == SPACE && d == SPACE
  {
  }

  /** ((unsigned *) (buf + i))[-1]: all four bytes lie inside the buffer. */
  function WordBefore(buf: array<uchar>, i: int): int
    requires SIZEOF_INT <= i <= buf.Length
    reads buf
  {
    WordOf(buf[i - 4], buf[i - 3], buf[i - 2], buf[i - 1])
  }

  /** A word of spaces can be dropped at once. */
  lemma WordOfSpaces(buf: array<uchar>, i: int)
    requires SIZEOF_INT <= i <= buf.Length && WordBefore(buf, i) == SPACE_INT
    ensures Trimmed(buf[..], i - SIZEOF_INT) == Trimmed(buf[..], i)
  {
    SpaceWord(buf[i - 4], buf[i - 3], buf[i - 2], buf[i - 1]);
    TrimmedInPortions(buf[..], i, i - SIZEOF_INT);
  }

  predicate Aligned(a: int) {
    a % SIZEOF_INT == 0
  }

  lemma NextAligned(a: int, b: int)
    requires Aligned(a) && Aligned(b)
    ensures b < a ==> b <= a - SIZEOF_INT && Aligned(a - SIZEOF_INT)
  {
  }

  /** The last multiple of the word size up to an address, and the first one from it. */
  function WordFloor(a: nat): (w: nat)
    ensures w <= a < w + SIZEOF_INT && Aligned(w)
  {
    a / SIZEOF_INT * SIZEOF_INT
  }

  function WordCeiling(a: nat): (w: nat)
    ensures a <= w < a + SIZEOF_INT && Aligned(w)
  {
    (a + SIZEOF_INT - 1) / SIZEOF_INT * SIZEOF_INT
  }

  /** For every content, length and start address the result is that of the byte-by-byte loop. */
  method SkipTrailingSpace(buf: array<uchar>, ptr: nat) returns (end: int)
    ensures end == ptr + Trimmed(buf[..], buf.Length)
  {
    hide Aligned, WordBefore, WordFloor, WordCeiling;
    ghost var s := buf[..];
    end := ptr + buf.Length;
    if buf.Length > 20 {
      var endWords := WordFloor(end);
      var startWords := WordCeiling(ptr);
      if endWords > ptr {
        while end > endWords && buf[end - 1 - ptr] == SPACE
          invariant endWords <= end <= ptr + buf.Length
          invariant Trimmed(s, end - ptr) == Trimmed(s, |s|)
        {
          end := end - 1;
        }
        if buf[end - 1 - ptr] == SPACE && startWords < endWords {
          NextAligned(end, startWords);
          while end > startWords && WordBefore(buf, end - ptr) == SPACE_INT
            invariant startWords <= end <= ptr + buf.Length && Aligned(end)
            invariant end > startWords ==> end - SIZEOF_INT >= startWords && Aligned(end - SIZEOF_INT)
            invariant Trimmed(s, end - ptr) == Trimmed(s, |s|)
          {
            var i := end - ptr;
            WordOfSpaces(buf, i);
            end := end - SIZEOF_INT;
            NextAligned(end, startWords);
          }
        }
      }
    }
    while end > ptr && buf[end - 1 - ptr] == SPACE
      invariant ptr <= end <= ptr + buf.Length
      invariant Trimmed(s, end - ptr) == Trimmed(s, |s|)
    {
      end := end - 1;
    }
  }
}
