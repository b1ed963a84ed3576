/** The length-prefixed block framing of `YYAES` and `YYRSA` in `yyssl.h`.  The block primitive is a
    parameter; what is proved is the framing around it. */
module BlockFraming {
  import opened Bytes

  /** What one call of a block primitive gives: an error, or one block of output. */
  datatype Outcome = Failed | Done(block: Text)
  datatype Result = Result(ok: bool, out: Text)

  /** What decryption appends.  After appending `out` it may be about to take more of its one-block
      buffer than there is (`OverRead`), or more than any string can hold, which makes the string
      throw before it reads anything (`TooLong`). */
  datatype Opened = Opened(ok: bool, out: Text) | OverRead(out: Text) | TooLong(out: Text)

  datatype Key = NoKey | Key(apply: Text -> Outcome)

  type Size = b: nat | 1 < b <= 128 witness 16

  const AES_BLOCK: Size := 16
  const RSA_BLOCK: Size := 128

  /** `max_size()` is at most this where size_t has 64 bits. */
  const LONGEST_STRING := 0x7FFF_FFFF_FFFF_FFFF

  /** A primitive that cannot fail, as the two AES calls. */
  function Always(f: Text -> Text): Text -> Outcome {
    x => Done(f(x))
  }

  function Zeros(b: nat): (z: Text)
    ensures |z| == b && forall i :: 0 <= i < b ==> z[i] == 0
  {
    seq(b, i => 0)
  }

  function Least(a: nat, b: nat): nat {
    if a < b then a else b
  }

  /** A buffer after the next bytes of m are copied over its front: what is beyond them stays. */
  function Loaded(from: Text, m: Text): (x: Text)
    ensures |x| == |from|
    ensures x[..Least(|m|, |from|)] == m[..Least(|m|, |from|)]
    ensures x[Least(|m|, |from|)..] == from[Least(|m|, |from|)..]
  {
    m[..Least(|m|, |from|)] + from[Least(|m|, |from|)..]
  }

  function Wiped(wipe: bool, from: Text): (x: Text)
    ensures |x| == |from|
  {
    if wipe then Zeros(|from|) else from
  }

  /** The blocks that encryption appends for m, with `from` left in the input buffer before. */
  function Seal(f: Text -> Outcome, wipe: bool, from: Text, m: Text): Result
    requires from != []
    decreases |m|
  {
    if m == [] then Result(true, [])
    else
      var x := Loaded(Wiped(wipe, from), m);
      match f(x)
      case Failed => Result(false, [])
      case Done(y) =>
        After(y, Seal(f, wipe, x, m[Least(|m|, |from|)..]))
  }

  function After(y: Text, rest: Result): Result {
    Result(rest.ok, y + rest.out)
  }

  function Behind(x: Text, r: Opened): (s: Opened)
    ensures s.out == x + r.out && (s.OverRead? <==> r.OverRead?) && (s.TooLong? <==> r.TooLong?)
    ensures r.Opened? ==> s.ok == r.ok
  {
    match r
    case Opened(ok, out) => Opened(ok, x + out)
    case OverRead(out) => OverRead(x + out)
    case TooLong(out) => TooLong(x + out)
  }

  /** What `append` does with a buffer x and a length. */
  function Taken(x: Text, h: nat): Opened {
    if h > LONGEST_STRING then TooLong([])
    else if h > |x| then OverRead([])
    else Opened(true, x[..h])
  }

  /** What decryption appends for the blocks c when the last one is to give h bytes, or all. */
  ghost function Open(g: Text -> Outcome, b: Size, h: nat, c: Text): Opened
    requires Sized(g, b)
    decreases |c|
  {
    if |c| < b then Opened(true, [])
    else
      match g(c[..b])
      case Failed => Opened(false, [])
      case Done(x) =>
        if h == 0 || |c| > b then Behind(x, Open(g, b, h, c[b..]))
        else Taken(x, h)
  }

  ghost predicate Sized(g: Text -> Outcome, b: nat) {
    forall x: Text :: |x| == b && g(x).Done? ==> |g(x).block| == b
  }

  /** g undoes f on every block that f accepts. */
  ghost predicate Inverse(f: Text -> Outcome, g: Text -> Outcome, b: nat) {
    forall x: Text :: |x| == b && f(x).Done? ==> g(f(x).block) == Done(x)
  }

  /** The whole message: one header byte, then the blocks. */
  function Frame(f: Text -> Outcome, wipe: bool, from: Text, m: Text): Result
    requires 0 < |from| <= 256
  {
    var s := Seal(f, wipe, from, m);
    Result(s.ok, [Header(m, |from|)] + s.out)
  }

  function Header(m: Text, b: nat): Byte
    requires 0 < b <= 256
  {
    |m| % b
  }

  /** The header as the length it is used for: a signed char that becomes a size_t. */
  function Count(h: Byte): nat {
    if h < 128 then h else 0x1_0000_0000_0000_0000 - 256 + h
  }

  ghost function Unframe(g: Text -> Outcome, b: Size, c: Text): Opened
    requires Sized(g, b)
  {
    if |c| % b != 1 then Opened(false, [])
    else if |c| == 1 then Opened(true, [])
    else Open(g, b, Count(c[0]), c[1..])
  }

  lemma Short(n: nat, b: nat)
    requires 0 < b
    ensures n < b ==> n / b == 0 && n % b == n
  {
    if n < b {
      SameParts(n, b, 0, n);
    }
  }

  lemma OneLess(n: nat, b: nat)
    requires 0 < b <= n
    ensures (n - b) % b == n % b && n / b == 1 + (n - b) / b
  {
    var q, r := n / b, n % b;
    assert n - b == b * (q - 1) + r;
    SameParts(n - b, b, q - 1, r);
  }

  lemma SameParts(n: nat, b: nat, q: int, r: nat)
    requires 0 < b && n == b * q + r && r < b
    ensures n / b == q && n % b == r
  {
    var d := q - n / b;
    assert b * d == n % b - r;
    Scaled(b, d);
  }

  lemma Scaled(b: int, d: int)
    requires 0 < b
    ensures 1 <= d ==> b <= b * d
    ensures d <= -1 ==> b * d <= 0 - b
  {
    assert b * d == b + b * (d - 1) == b * (d + 1) - b;
  }

  lemma {:induction false} BlocksOf(n: nat, b: nat)
    requires 0 < b
    ensures n == 0 ==> (n + b - 1) / b == 0
    ensures 0 < n <= b ==> (n + b - 1) / b == 1
    ensures b < n ==> (n + b - 1) / b == 1 + (n - b + b - 1) / b
  {
    if n == 0 {
      SameParts(b - 1, b, 0, b - 1);
    } else if n <= b {
      SameParts(n + b - 1, b, 1, n - 1);
    } else {
      OneLess(n + b - 1, b);
    }
  }

  lemma AtLeastOne(n: nat, b: nat)
    requires 0 < b && 0 < n
    ensures (n + b - 1) / b >= 1
  {
    OneLess(n + b - 1, b);
    assert (n - 1) / b >= 0;
  }

  /** What is left of a message in its last block. */
  lemma Remainder(n: nat, b: nat)
    requires 0 < b
    ensures n % b < b
    ensures n < b ==> n % b == n
    ensures n == b ==> n % b == 0
    ensures n >= b ==> (n - b) % b == n % b
  {
    Short(n, b);
    if n >= b {
      OneLess(n, b);
      Short(n - b, b);
    }
  }

  lemma BehindTwice(x: Text, y: Text, r: Opened)
    ensures Behind(x, Behind(y, r)) == Behind(x + y, r)
  {
    assert x + (y + r.out) == x + y + r.out;
  }

  lemma AfterTwice(x: Text, y: Text, r: Result)
    ensures After(x, After(y, r)) == After(x + y, r)
  {
    assert x + (y + r.out) == x + y + r.out;
  }

  /** One round of decryption, for a block that the primitive takes. */
  lemma OpenStep(g: Text -> Outcome, b: Size, h: nat, c: Text)
    requires Sized(g, b) && |c| >= b && g(c[..b]).Done?
    ensures h == 0 || |c| > b ==> Open(g, b, h, c) == Behind(g(c[..b]).block, Open(g, b, h, c[b..]))
    ensures h != 0 && |c| == b ==> Open(g, b, h, c) == Taken(g(c[..b]).block, h)
  {
    if |c| == b {
      assert c[..b] == c;
    }
  }

  lemma OpenCons(g: Text -> Outcome, b: Size, h: nat, y: Text, d: Text)
    requires Sized(g, b) && h <= b && |y| == b && g(y).Done?
    ensures d != [] || h == 0 ==> Open(g, b, h, y + d) == Behind(g(y).block, Open(g, b, h, d))
    ensures d == [] && h != 0 ==> Open(g, b, h, y + d) == Opened(true, g(y).block[..h])
  {
    assert (y + d)[..b] == y && (y + d)[b..] == d;
  }

  lemma SealCons(f: Text -> Outcome, wipe: bool, from: Text, m: Text)
    requires from != [] && Seal(f, wipe, from, m).ok && m != []
    ensures var x, rest := Loaded(Wiped(wipe, from), m), m[Least(|m|, |from|)..];
      f(x).Done? && Seal(f, wipe, from, m) == After(f(x).block, Seal(f, wipe, x, rest))
  {}

  lemma SealNil(f: Text -> Outcome, wipe: bool, x: Text, rest: Text)
    requires x != [] && Sized(f, |x|) && Seal(f, wipe, x, rest).ok
    ensures Seal(f, wipe, x, rest).out == [] <==> rest == []
  {
    if rest != [] {
      SealCons(f, wipe, x, rest);
    }
  }

  lemma LoadedParts(w: Text, m: Text)
    ensures |m| <= |w| ==> Loaded(w, m)[..|m|] == m && m[Least(|m|, |w|)..] == []
    ensures |m| >= |w| ==> Loaded(w, m) + m[Least(|m|, |w|)..] == m
  {
    if |m| >= |w| {
      assert Loaded(w, m) == m[..|w|];
    }
  }

  /** A complete sealing has a whole block for every started block of the message. */
  lemma {:induction false} SealedLength(f: Text -> Outcome, wipe: bool, from: Text, m: Text)
    requires from != [] && Sized(f, |from|) && Seal(f, wipe, from, m).ok
    ensures |Seal(f, wipe, from, m).out| == |from| * ((|m| + |from| - 1) / |from|)
    decreases |m|
  {
    var b := |from|;
    BlocksOf(|m|, b);
    if m != [] {
      var x, rest := Loaded(Wiped(wipe, from), m), m[Least(|m|, b)..];
      SealCons(f, wipe, from, m);
      SealNil(f, wipe, x, rest);
      if |m| > b {
        SealedLength(f, wipe, x, rest);
        Distribute(b, (|rest| + b - 1) / b);
      }
    }
  }

  lemma Distribute(b: int, n: int)
    ensures b * (1 + n) == b + b * n
  {}

  /** Opening undoes sealing, whatever the buffer held at the start and whatever of it is still
      there beyond the end of a last short block. */
  lemma {:induction false} OpenSealed(f: Text -> Outcome, g: Text -> Outcome, b: Size, wipe: bool, from: Text, m: Text,
                                      h: nat)
    requires |from| == b && Sized(f, b) && Sized(g, b) && Inverse(f, g, b)
    requires Seal(f, wipe, from, m).ok && h == |m| % b <= b
    ensures Open(g, b, h, Seal(f, wipe, from, m).out) == Opened(true, m)
    decreases |m|
  {
    if m != [] {
      var x, rest := Loaded(Wiped(wipe, from), m), m[Least(|m|, b)..];
      SealCons(f, wipe, from, m);
      SealNil(f, wipe, x, rest);
      LoadedParts(Wiped(wipe, from), m);
      OpenCons(g, b, h, f(x).block, Seal(f, wipe, x, rest).out);
      Remainder(|m|, b);
      if |m| >= b {
        OpenSealed(f, g, b, wipe, x, rest, h);
      }
    }
  }

  /** Decrypting what was encrypted gives every message back, the empty one and whole blocks
      included; the ciphertext is one byte and the started blocks long. */
  lemma RoundTrip(f: Text -> Outcome, g: Text -> Outcome, b: Size, wipe: bool, from: Text, m: Text)
    requires |from| == b && Sized(f, b) && Sized(g, b) && Inverse(f, g, b)
    requires Frame(f, wipe, from, m).ok
    ensures |Frame(f, wipe, from, m).out| == 1 + b * ((|m| + b - 1) / b)
    ensures Frame(f, wipe, from, m).out[0] == |m| % b
    ensures Unframe(g, b, Frame(f, wipe, from, m).out) == Opened(true, m)
  {
    var c := Frame(f, wipe, from, m).out;
    var n := (|m| + b - 1) / b;
    SealedLength(f, wipe, from, m);
    SameParts(1 + b * n, b, n, 1);
    Remainder(|m|, b);
    OpenSealed(f, g, b, wipe, from, m, |m| % b);
    assert c[1..] == Seal(f, wipe, from, m).out;
    if m != [] {
      AtLeastOne(|m|, b);
      assert b * n >= b * 1;
    }
  }

  /** For AES: any message, any stack contents before it. */
  lemma AesRoundTrip(encrypt: Text -> Text, decrypt: Text -> Text, junk: Text, m: Text)
    requires forall x: Text :: |x| == 16 ==> |encrypt(x)| == 16 && decrypt(encrypt(x)) == x
    requires forall x: Text :: |x| == 16 ==> |decrypt(x)| == 16
    requires |junk| == 16
    ensures |Frame(Always(encrypt), false, junk, m).out| == 1 + 16 * ((|m| + 15) / 16)
    ensures Sized(Always(decrypt), 16)
    ensures Unframe(Always(decrypt), AES_BLOCK, Frame(Always(encrypt), false, junk, m).out) == Opened(true, m)
  {
    SealsAll(Always(encrypt), junk, m);
    RoundTrip(Always(encrypt), Always(decrypt), AES_BLOCK, false, junk, m);
  }

  /** A primitive that cannot fail seals every message. */
  lemma {:induction false} SealsAll(f: Text -> Outcome, from: Text, m: Text)
    requires from != [] && forall x: Text {:trigger f(x)} :: f(x).Done?
    ensures Seal(f, false, from, m).ok
    decreases |m|
  {
    if m != [] {
      SealsAll(f, Loaded(from, m), m[Least(|m|, |from|)..]);
    }
  }

  /** Two messages never share a ciphertext, even when the buffers started out different. */
  lemma FrameInjective(f: Text -> Outcome, g: Text -> Outcome, b: Size, wipe: bool, j: Text, k: Text, m: Text, n: Text)
    requires |j| == |k| == b && Sized(f, b) && Sized(g, b) && Inverse(f, g, b)
    requires Frame(f, wipe, j, m).ok && Frame(f, wipe, j, m) == Frame(f, wipe, k, n)
    ensures m == n
  {
    RoundTrip(f, g, b, wipe, j, m);
    RoundTrip(f, g, b, wipe, k, n);
  }

  /** What the buffer held before matters only to a message shorter than a block, and never when
      the buffer is wiped. */
  lemma StaleOnlyInFirst(f: Text -> Outcome, wipe: bool, j: Text, k: Text, m: Text)
    requires 0 < |j| == |k| <= 256
    requires wipe || m == [] || |m| >= |j|
    ensures Frame(f, wipe, j, m) == Frame(f, wipe, k, m) && Seal(f, wipe, j, m) == Seal(f, wipe, k, m)
  {
    if m != [] {
      assert Loaded(Wiped(wipe, j), m) == Loaded(Wiped(wipe, k), m);
    }
  }

  /** Encryption completes exactly when the primitive takes every block. */
  lemma {:induction false} SealsAllOrFails(f: Text -> Outcome, from: Text, m: Text)
    requires from != []
    ensures Seal(f, true, from, m).ok <==> forall x :: x in Chunks(|from|, m) ==> f(x).Done?
    decreases |m|
  {
    if m != [] {
      var b := |from|;
      var x, rest := Loaded(Zeros(b), m), m[Least(|m|, b)..];
      assert x == if |m| <= b then m + Zeros(b - |m|) else m[..b];
      SealsAllOrFails(f, x, rest);
      assert Chunks(b, m) == [x] + Chunks(b, rest);
    }
  }

  /** The message cut into blocks, the last one filled up with zeros. */
  function Chunks(b: nat, m: Text): seq<Text>
    requires 0 < b
    decreases |m|
  {
    if m == [] then []
    else if |m| <= b then [m + Zeros(b - |m|)]
    else [m[..b]] + Chunks(b, m[b..])
  }

  // ---- What goes through the primitive, and what comes out ----

  /** The output for one block after the other, up to the first refused one. */
  function Gives(f: Text -> Outcome, blocks: seq<Text>): Text {
    if blocks == [] then []
    else match f(blocks[0])
         case Failed => []
         case Done(y) => y + Gives(f, blocks[1..])
  }

  ghost predicate TakesAll(f: Text -> Outcome, blocks: seq<Text>) {
    forall x :: x in blocks ==> f(x).Done?
  }

  lemma GivesCons(f: Text -> Outcome, x: Text, rest: seq<Text>)
    ensures Gives(f, [x] + rest) == if f(x).Done? then f(x).block + Gives(f, rest) else []
    ensures TakesAll(f, [x] + rest) <==> f(x).Done? && TakesAll(f, rest)
  {
    assert ([x] + rest)[1..] == rest;
  }

  /** The blocks are the message, filled up with zeros, in order. */
  lemma {:induction false} ChunksParts(b: nat, m: Text)
    requires 0 < b
    ensures |m| % b == 0 ==> Flat(Chunks(b, m)) == m
    ensures |m| % b != 0 ==> Flat(Chunks(b, m)) == m + Zeros(b - |m| % b)
    decreases |m|
  {
    Remainder(|m|, b);
    if |m| > b {
      ChunksParts(b, m[b..]);
      FlatCons(m[..b], Chunks(b, m[b..]));
      FrontBack(m, b);
      if |m| % b != 0 {
        Regroup(m[..b], m[b..], Zeros(b - |m| % b));
      }
    } else if m != [] {
      FlatCons(m + Zeros(b - |m|), []);
    }
  }

  lemma Regroup(x: Text, y: Text, z: Text)
    ensures x + (y + z) == (x + y) + z
  {}

  lemma {:induction false} ChunksSized(b: nat, m: Text)
    requires 0 < b
    ensures forall x :: x in Chunks(b, m) ==> |x| == b
    decreases |m|
  {
    if |m| > b {
      ChunksSized(b, m[b..]);
    }
  }

  function Flat(blocks: seq<Text>): Text {
    if blocks == [] then [] else blocks[0] + Flat(blocks[1..])
  }

  lemma FlatCons(x: Text, rest: seq<Text>)
    ensures Flat([x] + rest) == x + Flat(rest) && Flat([x]) == x
  {
    assert ([x] + rest)[1..] == rest;
    assert [x][1..] == [] && x + [] == x;
  }

  lemma {:induction false} GivesLength(f: Text -> Outcome, b: nat, m: Text)
    requires 0 < b && Sized(f, b) && |m| % b == 0 && TakesAll(f, Chunks(b, m))
    ensures |Gives(f, Chunks(b, m))| == |m|
    decreases |m|
  {
    Remainder(|m|, b);
    if |m| > b {
      GivesCons(f, m[..b], Chunks(b, m[b..]));
      GivesLength(f, b, m[b..]);
    } else if m != [] {
      WholeChunk(b, m);
      GivesCons(f, m, []);
    }
  }

  lemma WholeChunk(b: nat, m: Text)
    requires 0 < b == |m|
    ensures Chunks(b, m) == [m] == [m] + []
  {
    assert m + Zeros(0) == m;
  }

  /** With a wiped buffer the primitive gets the zero-filled message, block by block. */
  lemma {:induction false} SealGives(f: Text -> Outcome, from: Text, m: Text)
    requires from != []
    ensures Seal(f, true, from, m).out == Gives(f, Chunks(|from|, m))
    decreases |m|
  {
    if m != [] {
      var b := |from|;
      var x, rest := Loaded(Zeros(b), m), m[Least(|m|, b)..];
      assert x == if |m| <= b then m + Zeros(b - |m|) else m[..b];
      SealGives(f, x, rest);
      assert Chunks(b, m) == [x] + Chunks(b, rest);
      GivesCons(f, x, Chunks(b, rest));
    }
  }

  lemma FrameGives(f: Text -> Outcome, from: Text, m: Text)
    requires 0 < |from| <= 256
    ensures Frame(f, true, from, m) ==
            Result(TakesAll(f, Chunks(|from|, m)), [|m| % |from|] + Gives(f, Chunks(|from|, m)))
  {
    SealGives(f, from, m);
    SealsAllOrFails(f, from, m);
  }

  /** The message as a buffer that is not wiped completes it: behind a short end stand the bytes
      of one block earlier, or what was in the buffer at the start. */
  function Filled(from: Text, m: Text): Text
    requires from != []
  {
    var b := |from|;
    Remainder(|m|, b);
    if |m| % b == 0 then m
    else if |m| < b then m + from[|m|..]
    else m + m[|m| - b..|m| - |m| % b]
  }

  lemma FilledWhole(from: Text, m: Text)
    requires from != []
    ensures |Filled(from, m)| % |from| == 0 && |Filled(from, m)| >= |m|
  {
    var b, q, r := |from|, |m| / |from|, |m| % |from|;
    if r != 0 {
      Remainder(|m|, b);
      assert |Filled(from, m)| == b * (q + 1) + 0;
      SameParts(|Filled(from, m)|, b, q + 1, 0);
    }
  }

  lemma TailSlices(m: Text, b: nat, r: nat)
    requires r <= b < |m|
    ensures m[..b][r..] == m[r..b]
    ensures |m| >= 2 * b ==> m[|m| - b..|m| - r] == m[b..][|m| - 2 * b..|m| - b - r]
  {}

  /** Filling the message and filling what is left of it after a block are the same. */
  lemma FilledCons(from: Text, m: Text)
    requires from != [] && |m| > |from|
    ensures Filled(from, m) == m[..|from|] + Filled(m[..|from|], m[|from|..])
  {
    var b, x, rest := |from|, m[..|from|], m[|from|..];
    Remainder(|m|, b);
    Remainder(|rest|, b);
    TailSlices(m, b, |m| % b);
    FrontBack(m, b);
    if |m| % b != 0 {
      var tail := m[|m| - b..|m| - |m| % b];
      assert Filled(x, rest) == rest + tail;
      assert (x + rest) + tail == x + (rest + tail);
    }
  }

  lemma FrontBack(m: Text, b: nat)
    requires b <= |m|
    ensures m[..b] + m[b..] == m
  {}

  /** Without wiping, a message with a short end is sealed like the filled one. */
  lemma {:induction false} SealFilled(f: Text -> Outcome, from: Text, m: Text)
    requires from != []
    ensures Seal(f, false, from, m) == Seal(f, false, from, Filled(from, m))
    decreases |m|
  {
    var b := |from|;
    if |m| > b {
      FilledCons(from, m);
      var x, rest := m[..b], m[b..];
      SealFilled(f, x, rest);
      FilledWhole(x, rest);
      SealWhole(f, from, x, rest);
      SealWhole(f, from, x, Filled(x, rest));
      assert x + rest == m;
    } else if 0 < |m| < b {
      Remainder(|m|, b);
      assert Loaded(from, m) == m + from[|m|..] == Loaded(from, Filled(from, m));
    } else {
      Remainder(|m|, b);
    }
  }

  lemma SealWhole(f: Text -> Outcome, from: Text, x: Text, rest: Text)
    requires from != [] && |x| == |from|
    ensures Seal(f, false, from, x + rest) ==
            if f(x).Done? then After(f(x).block, Seal(f, false, x, rest)) else Result(false, [])
  {
    assert Loaded(from, x + rest) == x && (x + rest)[|x|..] == rest;
  }

  /** So the primitive gets the filled message, block by block. */
  lemma {:induction false} SealGivesWhole(f: Text -> Outcome, from: Text, m: Text)
    requires from != [] && |m| % |from| == 0
    ensures Seal(f, false, from, m).out == Gives(f, Chunks(|from|, m))
    decreases |m|
  {
    var b := |from|;
    Remainder(|m|, b);
    if m != [] {
      var x, rest := m[..b], m[b..];
      assert x + rest == m;
      SealWhole(f, from, x, rest);
      SealGivesWhole(f, x, rest);
      if rest == [] { WholeChunk(b, m); }
      assert Chunks(b, m) == [x] + Chunks(b, rest);
      GivesCons(f, x, Chunks(b, rest));
    }
  }

  lemma SealGivesFilled(f: Text -> Outcome, from: Text, m: Text)
    requires from != []
    ensures Seal(f, false, from, m).out == Gives(f, Chunks(|from|, Filled(from, m)))
  {
    SealFilled(f, from, m);
    FilledWhole(from, m);
    SealGivesWhole(f, from, Filled(from, m));
  }

  /** How a decryption of n bytes ends, when the primitive gives `all`: it succeeds exactly if the
      primitive takes all blocks and the last length can be met; it appends what the primitive
      gives, up to a refused block, and of the last block h bytes, or all. */
  ghost predicate EndsAs(r: Opened, b: nat, h: nat, n: nat, all: Text, takes: bool) {
    && (r.Opened? ==> (r.ok <==> takes))
    && (r.Opened? && (h == 0 || n == 0 || !r.ok) ==> r.out == all)
    && (r.Opened? && h != 0 && n != 0 && r.ok ==> h <= b <= |all| == n && r.out == all[..n - b + h])
    && (!r.Opened? ==> b <= |all| == n && r.out == all[..n - b])
  }

  lemma EndsBehind(x: Text, r: Opened, b: nat, h: nat, n: nat, all: Text, takes: bool)
    requires |x| == b && EndsAs(r, b, h, n, all, takes) && n > 0
    ensures EndsAs(Behind(x, r), b, h, n + b, x + all, takes)
  {
    if r.Opened? && h != 0 && r.ok {
      assert (x + all)[..n + b - b + h] == x + all[..n - b + h];
    }
    if !r.Opened? {
      assert (x + all)[..n + b - b] == x + all[..n - b];
    }
  }

  lemma {:induction false} OpenGives(g: Text -> Outcome, b: Size, h: nat, c: Text)
    requires Sized(g, b) && |c| % b == 0
    ensures EndsAs(Open(g, b, h, c), b, h, |c|, Gives(g, Chunks(b, c)), TakesAll(g, Chunks(b, c)))
    decreases |c|
  {
    Remainder(|c|, b);
    if |c| == b {
      OpenLast(g, b, h, c);
    } else if |c| > b {
      var x, rest := c[..b], c[b..];
      OpenGives(g, b, h, rest);
      GivesCons(g, x, Chunks(b, rest));
      if g(x).Done? {
        EndsBehind(g(x).block, Open(g, b, h, rest), b, h, |rest|, Gives(g, Chunks(b, rest)), TakesAll(g, Chunks(b, rest)));
      }
    }
  }

  lemma OpenLast(g: Text -> Outcome, b: Size, h: nat, c: Text)
    requires Sized(g, b) && |c| == b
    ensures EndsAs(Open(g, b, h, c), b, h, b, Gives(g, Chunks(b, c)), TakesAll(g, Chunks(b, c)))
  {
    assert c[..b] == c;
    WholeChunk(b, c);
    GivesCons(g, c, []);
    assert Open(g, b, h, []) == Opened(true, []);
  }

  /** A primitive that cannot fail never makes decryption refuse. */
  lemma {:induction false} NeverFails(d: Text -> Text, b: Size, h: nat, c: Text)
    requires Sized(Always(d), b)
    ensures Open(Always(d), b, h, c).Opened? ==> Open(Always(d), b, h, c).ok
    decreases |c|
  {
    if |c| >= b {
      NeverFails(d, b, h, c[b..]);
    }
  }

  // ---- Staying inside the buffer ----

  /** There are blocks and the primitive takes them all. */
  ghost predicate AllTaken(g: Text -> Outcome, b: Size, c: Text) {
    c != [] && forall x :: x in Chunks(b, c) ==> g(x).Done?
  }

  lemma {:induction false} OpenBeyond(g: Text -> Outcome, b: Size, h: nat, c: Text)
    requires Sized(g, b) && |c| % b == 0
    ensures Open(g, b, h, c).OverRead? <==> b < h <= LONGEST_STRING && AllTaken(g, b, c)
    ensures Open(g, b, h, c).TooLong? <==> h > LONGEST_STRING && AllTaken(g, b, c)
    decreases |c|
  {
    Remainder(|c|, b);
    if |c| == b {
      assert c[..b] == c == c + Zeros(0);
      assert Chunks(b, c) == [c];
      assert Open(g, b, h, []) == Opened(true, []);
    } else if |c| > b {
      OpenBeyond(g, b, h, c[b..]);
      assert Chunks(b, c) == [c[..b]] + Chunks(b, c[b..]);
    }
  }

  lemma WithoutHeader(n: nat, b: nat)
    requires 1 < b && 1 < n && n % b == 1
    ensures (n - 1) % b == 0
  {
    var q := n / b;
    assert n - 1 == b * q + 0;
    SameParts(n - 1, b, q, 0);
  }

  /** A message of the right length is opened block by block. */
  lemma UnframeGives(g: Text -> Outcome, b: Size, c: Text)
    requires Sized(g, b) && |c| % b == 1
    ensures c != [] && EndsAs(Unframe(g, b, c), b, Count(c[0]), |c| - 1,
                              Gives(g, Chunks(b, c[1..])), TakesAll(g, Chunks(b, c[1..])))
  {
    if c == [] {
      Remainder(0, b);
    } else if |c| > 1 {
      WithoutHeader(|c|, b);
      OpenGives(g, b, Count(c[0]), c[1..]);
    }
  }

  /** The blocks behind the header are whole ones, at least one, and the primitive takes them. */
  ghost predicate BlocksTaken(g: Text -> Outcome, b: Size, c: Text) {
    |c| > 1 && |c| % b == 1 && AllTaken(g, b, c[1..])
  }

  /** Decryption reads beyond its buffer exactly if it comes to the last block and the header, as
      a length, is more than a block but not more than a string can hold; for a longer one the
      string throws. */
  lemma BeyondIff(g: Text -> Outcome, b: Size, c: Text)
    requires Sized(g, b)
    ensures Unframe(g, b, c).OverRead? <==> BlocksTaken(g, b, c) && b < c[0] < 128
    ensures Unframe(g, b, c).TooLong? <==> BlocksTaken(g, b, c) && c[0] >= 128
  {
    if |c| > 1 && |c| % b == 1 {
      WithoutHeader(|c|, b);
      OpenBeyond(g, b, Count(c[0]), c[1..]);
    }
  }

  /** For AES a header of 17 to 127 reads beyond the buffer, and a larger one throws. */
  lemma AesBeyondIff(decrypt: Text -> Text, c: Text)
    requires Sized(Always(decrypt), AES_BLOCK)
    ensures Unframe(Always(decrypt), AES_BLOCK, c).OverRead? <==> |c| > 1 && |c| % 16 == 1 && 16 < c[0] < 128
    ensures Unframe(Always(decrypt), AES_BLOCK, c).TooLong? <==> |c| > 1 && |c| % 16 == 1 && c[0] >= 128
    ensures Unframe(Always(decrypt), AES_BLOCK, c).Opened? ==>
              (Unframe(Always(decrypt), AES_BLOCK, c).ok <==> |c| % 16 == 1)
  {
    BeyondIff(Always(decrypt), AES_BLOCK, c);
    if |c| > 1 {
      NeverFails(decrypt, AES_BLOCK, Count(c[0]), c[1..]);
    }
  }

  /** For RSA nothing is ever read beyond the buffer; a header that is negative as a char throws. */
  lemma RsaBeyondIff(g: Text -> Outcome, c: Text)
    requires Sized(g, RSA_BLOCK)
    ensures !Unframe(g, RSA_BLOCK, c).OverRead?
    ensures Unframe(g, RSA_BLOCK, c).TooLong? <==> BlocksTaken(g, RSA_BLOCK, c) && c[0] >= 128
  {
    BeyondIff(g, RSA_BLOCK, c);
  }

  /** The smallest such inputs. */
  lemma BeyondExamples(decrypt: Text -> Text)
    requires Sized(Always(decrypt), AES_BLOCK) && Sized(Always(decrypt), RSA_BLOCK)
    ensures Unframe(Always(decrypt), AES_BLOCK, [17] + Zeros(16)) == OverRead([])
    ensures Unframe(Always(decrypt), AES_BLOCK, [128] + Zeros(16)) == TooLong([])
    ensures Unframe(Always(decrypt), RSA_BLOCK, [128] + Zeros(128)) == TooLong([])
  {
    assert ([17] + Zeros(16))[1..] == ([128] + Zeros(16))[1..] == Zeros(16);
    assert ([128] + Zeros(128))[1..] == Zeros(128);
  }

  /** What encryption produces leads to neither. */
  lemma FramesFit(f: Text -> Outcome, g: Text -> Outcome, b: Size, wipe: bool, from: Text, m: Text)
    requires |from| == b && Sized(g, b)
    ensures Unframe(g, b, Frame(f, wipe, from, m).out).Opened?
  {
    Remainder(|m|, b);
    BeyondIff(g, b, Frame(f, wipe, from, m).out);
  }

  function Rest(m: Text, offset: nat): Text {
    if offset <= |m| then m[offset..] else []
  }

  /** `std::string::copy` into a buffer: as many bytes as there are, the rest of it stays. */
  method Copy(from: array<Byte>, inbuf: Text, offset: nat)
    requires offset <= |inbuf|
    modifies from
    ensures from[..] == Loaded(old(from[..]), inbuf[offset..])
    ensures offset + from.Length <= |inbuf| ==> from[..] == inbuf[offset..][..from.Length]
    ensures forall i :: 0 <= i < from.Length ==> from[i] == if offset + i < |inbuf| then inbuf[offset + i] else old(from[i])
  {
    forall i | 0 <= i < Least(|inbuf| - offset, from.Length) {
      from[i] := inbuf[offset + i];
    }
  }

  /** The primitive on the next whole block. */
  method ApplyTo(from: array<Byte>, inbuf: Text, offset: nat, g: Text -> Outcome) returns (r: Outcome)
    requires offset + from.Length <= |inbuf|
    modifies from
    ensures r == g(inbuf[offset..][..from.Length])
  {
    Copy(from, inbuf, offset);
    r := g(from[..]);
  }

  /** `YYAES`, with the two keyed primitives for the keys. */
  class Aes {
    var encrypt: Text -> Text
    var decrypt: Text -> Text

    constructor (encrypt: Text -> Text, decrypt: Text -> Text)
      ensures this.encrypt == encrypt && this.decrypt == decrypt
    {
      this.encrypt, this.decrypt := encrypt, decrypt;
    }

    /** `AESEncrypt`: the input buffer starts with whatever was on the stack and is not wiped. */
    method AESEncrypt(inbuf: Text, outbuf: Text) returns (ok: bool, sealed: Text)
      ensures ok && exists junk: Text ::
                && |junk| == AES_BLOCK && sealed == outbuf + Frame(Always(encrypt), false, junk, inbuf).out
                && sealed == outbuf + ([|inbuf| % 16] + Gives(Always(encrypt), Chunks(16, Filled(junk, inbuf))))
    {
      ghost var junk;
      sealed, junk := EncryptBlocks(inbuf, outbuf + [Header(inbuf, 16)], Always(encrypt));
      ghost var blocks := Seal(Always(encrypt), false, junk, inbuf).out;
      SealGivesFilled(Always(encrypt), junk, inbuf);
      assert outbuf + [Header(inbuf, 16)] + blocks == outbuf + ([Header(inbuf, 16)] + blocks);
      ok := true;
    }

    /** Its loop, with the primitive as a ghost outcome. */
    method EncryptBlocks(inbuf: Text, outbuf: Text, ghost f: Text -> Outcome) returns (sealed: Text, ghost junk: Text)
      requires forall x: Text {:trigger f(x)} :: f(x) == Done(encrypt(x))
      ensures |junk| == AES_BLOCK && sealed == outbuf + Seal(f, false, junk, inbuf).out
    {
      var from := new Byte[16];
      junk := from[..];
      sealed := outbuf;
      var offset := 0;
      SealsAll(f, junk, inbuf);
      while offset < |inbuf|
        invariant Seal(f, false, from[..], Rest(inbuf, offset)).ok
        invariant After(sealed, Seal(f, false, from[..], Rest(inbuf, offset)))
               == After(outbuf, Seal(f, false, junk, inbuf))
      {
        ghost var was, m := from[..], inbuf[offset..];
        SealCons(f, false, was, m);
        Copy(from, inbuf, offset);
        assert m[Least(|m|, 16)..] == Rest(inbuf, offset + 16);
        AfterTwice(sealed, encrypt(from[..]), Seal(f, false, from[..], Rest(inbuf, offset + 16)));
        sealed := sealed + encrypt(from[..]);
        offset := offset + 16;
      }
    }

    /** `AESDecrypt`, into the string after what it holds already. */
    method AESDecrypt(inbuf: Text, outbuf: Text) returns (r: Opened)
      requires Sized(Always(decrypt), AES_BLOCK)
      ensures r == Behind(outbuf, Unframe(Always(decrypt), AES_BLOCK, inbuf))
      ensures r.OverRead? <==> |inbuf| > 1 && |inbuf| % 16 == 1 && 16 < inbuf[0] < 128
      ensures r.TooLong? <==> |inbuf| > 1 && |inbuf| % 16 == 1 && inbuf[0] >= 128
      ensures r.Opened? ==> (r.ok <==> |inbuf| % 16 == 1)
    {
      AesBeyondIff(decrypt, inbuf);
      if |inbuf| < 1 || |inbuf| % 16 != 1 {
        return Opened(false, outbuf);
      }
      r := DecryptBlocks(inbuf, outbuf, Always(decrypt));
    }

    /** Its loop over the blocks behind the header. */
    method DecryptBlocks(inbuf: Text, outbuf: Text, g: Text -> Outcome) returns (r: Opened)
      requires forall x: Text {:trigger g(x)} :: g(x).Done?
      requires Sized(g, AES_BLOCK) && |inbuf| % 16 == 1
      ensures r == Behind(outbuf, Open(g, AES_BLOCK, Count(inbuf[0]), inbuf[1..]))
    {
      var plain := outbuf;
      var from := new Byte[16];
      var h := inbuf[0];
      var offset := 1;
      while offset < |inbuf|
        invariant 1 <= offset <= |inbuf| && (|inbuf| - offset) % 16 == 0
        invariant Behind(plain, Open(g, AES_BLOCK, Count(h), inbuf[offset..]))
               == Behind(outbuf, Open(g, AES_BLOCK, Count(h), inbuf[1..]))
      {
        ghost var c := inbuf[offset..];
        var done := ApplyTo(from, inbuf, offset, g);
        var to := done.block;
        OpenStep(g, AES_BLOCK, Count(h), c);
        offset := offset + 16;
        assert c[16..] == inbuf[offset..];
        if h != 0 && offset >= |inbuf| {
          var taken := Taken(to, Count(h));
          assert Open(g, AES_BLOCK, Count(h), c) == taken && inbuf[offset..] == [];
          if !taken.Opened? {
            return Behind(plain, taken);
          }
          plain := plain + taken.out;
        } else {
          BehindTwice(plain, to, Open(g, AES_BLOCK, Count(h), inbuf[offset..]));
          plain := plain + to;
        }
      }
      r := Opened(true, plain);
    }
  }

  /** `YYRSA`: either key may be missing, and the primitive may refuse a block. */
  class Rsa {
    var publicKey: Key
    var privateKey: Key

    constructor ()
      ensures publicKey == NoKey && privateKey == NoKey
    {
      publicKey, privateKey := NoKey, NoKey;
    }

    /** `SetRSAKey`: a key that is not given stays as it was. */
    method SetRSAKey(public: Key, private: Key)
      modifies this
      ensures publicKey == if public.Key? then public else old(publicKey)
      ensures privateKey == if private.Key? then private else old(privateKey)
    {
      if public.Key? {
        publicKey := public;
      }
      if private.Key? {
        privateKey := private;
      }
    }

    /** `RSAPublicEncrypt`: the input buffer is zeroed for every block.  After a refused block the
        string keeps the header and the blocks before it. */
    method RSAPublicEncrypt(inbuf: Text, outbuf: Text) returns (ok: bool, sealed: Text)
      ensures publicKey.NoKey? ==> !ok && sealed == outbuf
      ensures publicKey.Key? ==> ok == Frame(publicKey.apply, true, Zeros(RSA_BLOCK), inbuf).ok
      ensures publicKey.Key? ==> sealed == outbuf + Frame(publicKey.apply, true, Zeros(RSA_BLOCK), inbuf).out
      ensures publicKey.Key? ==> (ok <==> TakesAll(publicKey.apply, Chunks(128, inbuf)))
      ensures publicKey.Key? ==> sealed == outbuf + ([|inbuf| % 128] + Gives(publicKey.apply, Chunks(128, inbuf)))
    {
      if publicKey.NoKey? {
        return false, outbuf;
      }
      ok, sealed := EncryptBlocks(inbuf, outbuf + [Header(inbuf, 128)], publicKey.apply);
      FrameGives(publicKey.apply, Zeros(128), inbuf);
      Regroup(outbuf, [Header(inbuf, 128)], Gives(publicKey.apply, Chunks(128, inbuf)));
    }

    /** Its loop over the blocks. */
    method EncryptBlocks(inbuf: Text, outbuf: Text, f: Text -> Outcome) returns (ok: bool, sealed: Text)
      ensures ok == Seal(f, true, Zeros(RSA_BLOCK), inbuf).ok
      ensures sealed == outbuf + Seal(f, true, Zeros(RSA_BLOCK), inbuf).out
    {
      sealed := outbuf;
      var from := new Byte[128];
      StaleOnlyInFirst(f, true, from[..], Zeros(128), inbuf);
      var offset := 0;
      while offset < |inbuf|
        invariant offset <= |inbuf|
        invariant Seal(f, true, from[..], inbuf[offset..]).ok == Seal(f, true, Zeros(128), inbuf).ok
        invariant sealed + Seal(f, true, from[..], inbuf[offset..]).out
               == outbuf + Seal(f, true, Zeros(128), inbuf).out
      {
        ghost var was := from[..];
        forall i | 0 <= i < 128 {
          from[i] := 0;
        }
        assert from[..] == Wiped(true, was);
        Copy(from, inbuf, offset);
        var len := Least(|inbuf| - offset, 128);
        assert inbuf[offset..][len..] == inbuf[offset + len..];
        var r := f(from[..]);
        if r.Failed? {
          return false, sealed;
        }
        sealed := sealed + r.block;
        offset := offset + len;
      }
      ok := true;
    }

    /** `RSAPrivateDecrypt`. */
    method RSAPrivateDecrypt(inbuf: Text, outbuf: Text) returns (r: Opened)
      requires privateKey.Key? ==> Sized(privateKey.apply, RSA_BLOCK)
      ensures privateKey.NoKey? ==> r == Opened(false, outbuf)
      ensures privateKey.Key? ==> r == Behind(outbuf, Unframe(privateKey.apply, RSA_BLOCK, inbuf))
      ensures !r.OverRead?
      ensures privateKey.Key? && r.Opened? ==>
                (r.ok <==> |inbuf| % 128 == 1 && TakesAll(privateKey.apply, Chunks(128, inbuf[1..])))
    {
      if privateKey.NoKey? || |inbuf| % 128 != 1 {
        return Opened(false, outbuf);
      }
      UnframeGives(privateKey.apply, RSA_BLOCK, inbuf);
      RsaBeyondIff(privateKey.apply, inbuf);
      r := DecryptBlocks(inbuf, outbuf, privateKey.apply);
    }

    /** Its loop over the blocks behind the header. */
    method DecryptBlocks(inbuf: Text, outbuf: Text, g: Text -> Outcome) returns (r: Opened)
      requires Sized(g, RSA_BLOCK) && |inbuf| % 128 == 1
      ensures r == Behind(outbuf, Open(g, RSA_BLOCK, Count(inbuf[0]), inbuf[1..]))
    {
      var plain := outbuf;
      var from := new Byte[128];
      var h := inbuf[0];
      var offset := 1;
      while offset < |inbuf|
        invariant 1 <= offset <= |inbuf| && (|inbuf| - offset) % 128 == 0
        invariant Behind(plain, Open(g, RSA_BLOCK, Count(h), inbuf[offset..]))
               == Behind(outbuf, Open(g, RSA_BLOCK, Count(h), inbuf[1..]))
      {
        ghost var c := inbuf[offset..];
        var done := ApplyTo(from, inbuf, offset, g);
        if done.Failed? {
          return Opened(false, plain);
        }
        OpenStep(g, RSA_BLOCK, Count(h), c);
        offset := offset + 128;
        assert c[128..] == inbuf[offset..];
        if h != 0 && offset >= |inbuf| {
          var taken := Taken(done.block, Count(h));
          assert Open(g, RSA_BLOCK, Count(h), c) == taken && inbuf[offset..] == [];
          if !taken.Opened? {
            return Behind(plain, taken);
          }
          plain := plain + taken.out;
        } else {
          BehindTwice(plain, done.block, Open(g, RSA_BLOCK, Count(h), inbuf[offset..]));
          plain := plain + done.block;
        }
      }
      r := Opened(true, plain);
    }
  }
}
