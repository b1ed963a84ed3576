/** The word-at-a-time `skip_trailing_space` of `m_string.h`. */
module TrailingSpace {
  import opened Bytes

  const SPACE: Byte := 0x20
  const SIZEOF_INT := 4
  const SPACE_INT := 0x20202020

  /** The length of `s` without its trailing spaces, byte by byte from the end. */
  function Trimmed(s: Text): (r: nat)
    ensures r <= |s|
  {
    if s == [] then 0
    else if s[|s| - 1] == SPACE then Trimmed(s[..|s| - 1])
    else |s|
  }

  /** Only spaces are cut off, and all of them. */
  lemma {:induction false} TrimmedIs(s: Text)
    ensures forall i :: Trimmed(s) <= i < |s| ==> s[i] == 0x20
    ensures Trimmed(s) > 0 ==> s[Trimmed(s) - 1] != 0x20
    decreases |s|
  {
    if s != [] && s[|s| - 1] == SPACE {
      TrimmedIs(s[..|s| - 1]);
    }
  }

  lemma {:induction false} TrimSpaces(s: Text, e: nat)
    requires e <= |s| && forall i :: e <= i < |s| ==> s[i] == SPACE
    ensures Trimmed(s[..e]) == Trimmed(s)
    decreases |s|
  {
    if e == |s| {
      assert s[..e] == s;
    } else {
      var t := s[..|s| - 1];
      assert t[..e] == s[..e];
      TrimSpaces(t, e);
    }
  }

  /** The unsigned int at index `i`, on a machine that stores the low byte first. */
  function Word(s: Text, i: nat): int
    requires i + SIZEOF_INT <= |s|
  {
    (s[i] as int) + 0x100 * (s[i + 1] as int) + 0x1_0000 * (s[i + 2] as int) + 0x100_0000 * (s[i + 3] as int)
  }

  lemma FourDigits(a: int, b: int, c: int, d: int)
    requires -0x100 < a < 0x100 && -0x100 < b < 0x100 && -0x100 < c < 0x100 && -0x100 < d < 0x100
    requires a + 0x100 * b + 0x1_0000 * c + 0x100_0000 * d == 0
    ensures a == 0 && b == 0 && c == 0 && d == 0
  {}

  lemma WordOfSpaces(s: Text, i: nat)
    requires i + SIZEOF_INT <= |s|
    ensures Word(s, i) == SPACE_INT <==> forall j :: i <= j < i + SIZEOF_INT ==> s[j] == SPACE
  {
    if Word(s, i) == SPACE_INT {
      var a: int, b: int, c: int, d: int := s[i], s[i + 1], s[i + 2], s[i + 3];
      FourDigits(a - 0x20, b - 0x20, c - 0x20, d - 0x20);
    }
  }

  /** The load of the word that ends at index `end`: it must be inside the buffer and aligned. */
  method LoadWord(s: Text, ptr: nat, end: nat) returns (w: int)
    requires SIZEOF_INT <= end <= |s| && (ptr + end) % SIZEOF_INT == 0
    ensures w == SPACE_INT <==> forall j :: end - SIZEOF_INT <= j < end ==> s[j] == SPACE
  {
    WordOfSpaces(s, end - SIZEOF_INT);
    w := Word(s, end - SIZEOF_INT);
  }

  lemma WordGap(a: nat, b: nat)
    requires a % SIZEOF_INT == 0 && b % SIZEOF_INT == 0 && a < b
    ensures a + SIZEOF_INT <= b && (b - SIZEOF_INT) % SIZEOF_INT == 0
  {}

  /** The middle part, on words: from `end0` down to `startWords` at the most. */
  method SkipWords(s: Text, ptr: nat, end0: nat, startWords: nat) returns (end: nat)
    requires startWords <= end0 <= |s| && (ptr + end0) % SIZEOF_INT == 0 && (ptr + startWords) % SIZEOF_INT == 0
    ensures end <= end0 && Trimmed(s[..end]) == Trimmed(s[..end0])
  {
    end := end0;
    while end > startWords
      invariant startWords <= end <= end0 && (ptr + end) % SIZEOF_INT == 0
      invariant Trimmed(s[..end]) == Trimmed(s[..end0])
    {
      WordGap(ptr + startWords, ptr + end);
      var w := LoadWord(s, ptr, end);
      if w != SPACE_INT { break; }
      Cut(s, end, end - SIZEOF_INT);
      end := end - SIZEOF_INT;
    }
  }

  /** A byte-by-byte loop, which the source has twice. */
  method SkipBytes(s: Text, end0: nat, low: nat) returns (end: nat)
    requires low <= end0 <= |s|
    ensures low <= end <= end0 && Trimmed(s[..end]) == Trimmed(s[..end0])
    ensures end > low ==> s[end - 1] != SPACE
  {
    end := end0;
    while end > low && s[end - 1] == SPACE
      invariant low <= end <= end0 && Trimmed(s[..end]) == Trimmed(s[..end0])
    {
      Cut(s, end, end - 1);
      end := end - 1;
    }
  }

  /** The last address divisible by the word size that is not above `a`. */
  function Down(a: nat): (r: nat)
    ensures r % SIZEOF_INT == 0 && r <= a < r + SIZEOF_INT
  {
    a / SIZEOF_INT * SIZEOF_INT
  }

  /** skip_trailing_space for the bytes `s` at address `ptr`; `end` counts from `ptr`. */
  method Skip(s: Text, ptr: nat) returns (end: nat)
    ensures end == Trimmed(s)
  {
    end := |s|;
    assert s[..end] == s;
    if |s| > 20 {
      var endWords, startWords := Down(ptr + end), Down(ptr + SIZEOF_INT - 1);
      if endWords > ptr {
        end := SkipBytes(s, end, endWords - ptr);
        if s[end - 1] == SPACE && startWords < endWords {
          end := SkipWords(s, ptr, end, startWords - ptr);
        }
      }
    }
    end := SkipBytes(s, end, 0);
    assert s[..end] == [] || Trimmed(s[..end]) == end;
  }

  lemma Cut(s: Text, end: nat, e: nat)
    requires e <= end <= |s| && forall i :: e <= i < end ==> s[i] == SPACE
    ensures Trimmed(s[..e]) == Trimmed(s[..end])
  {
    assert s[..end][..e] == s[..e];
    TrimSpaces(s[..end], e);
  }
}
