/** The layout of a new program's stack, as a value: which bytes stand where. */
module StackLayout {
  import opened LittleEndian

  /** What `execve` hands to the stack builder. */
  datatype Args = Args(
    top: nat, path: seq<Byte>, argv: seq<seq<Byte>>, envp: seq<seq<Byte>>,
    entry: nat, phdr: nat, phnum: nat, uid: nat, gid: nat)

  const RANDOM: seq<Byte> :=
    [0xde, 0xad, 0xbe, 0xef, 0xca, 0xfe, 0xba, 0xbe, 0x12, 0x34, 0x56, 0x78, 0x9a, 0xbc, 0xde, 0xf0]

  // ---------- Words in memory ----------

  function Flat(words: seq<nat>): (s: seq<Byte>)
    ensures |s| == 8 * |words|
  {
    if words == [] then [] else ToLe(words[0], 8) + Flat(words[1..])
  }

  lemma {:induction false} FlatWord(words: seq<nat>, i: nat)
    requires i < |words|
    ensures Flat(words)[8 * i..8 * i + 8] == ToLe(words[i], 8)
    decreases i
  {
    hide ToLe;
    var first, rest := ToLe(words[0], 8), Flat(words[1..]);
    if i > 0 {
      FlatWord(words[1..], i - 1);
      SliceBehind(first, rest, 8 * i - 8, 8 * i);
    } else {
      assert (first + rest)[0..8] == first;
    }
  }

  lemma SliceBehind(front: seq<Byte>, rest: seq<Byte>, x: nat, y: nat)
    requires x <= y <= |rest|
    ensures (front + rest)[|front| + x..|front| + y] == rest[x..y]
  {
  }

  // ---------- Strings in memory ----------

  /** The strings one after another, each with its NUL. */
  function Block(strs: seq<seq<Byte>>): seq<Byte> {
    if strs == [] then [] else strs[0] + [0] + Block(strs[1..])
  }

  /** Where each string of a block at an address starts. */
  function Pointers(strs: seq<seq<Byte>>, at: nat): (p: seq<nat>)
    ensures |p| == |strs|
  {
    if strs == [] then [] else [at] + Pointers(strs[1..], at + |strs[0]| + 1)
  }

  lemma {:induction false} BlockSplit(strs: seq<seq<Byte>>, i: nat)
    requires i <= |strs|
    ensures Block(strs) == Block(strs[..i]) + Block(strs[i..])
    decreases i
  {
    if i > 0 {
      BlockSplit(strs[1..], i - 1);
      assert strs[1..][..i - 1] == strs[..i][1..] && strs[1..][i - 1..] == strs[i..];
    } else {
      assert strs[..0] == [] && strs[0..] == strs;
    }
  }

  lemma {:induction false} PointerIs(strs: seq<seq<Byte>>, at: nat, i: nat)
    requires i < |strs|
    ensures Pointers(strs, at)[i] == at + |Block(strs[..i])|
    decreases i
  {
    if i > 0 {
      PointerIs(strs[1..], at + |strs[0]| + 1, i - 1);
      assert strs[1..][..i - 1] == strs[..i][1..];
    }
  }

  /** Each pointer leads to its own string and NUL. */
  lemma PointersInBlock(strs: seq<seq<Byte>>, at: nat, i: nat)
    requires i < |strs|
    ensures var p := Pointers(strs, at)[i];
            var off := |Block(strs[..i])|;
            && p == at + off && off + |strs[i]| + 1 <= |Block(strs)|
            && Block(strs)[off..off + |strs[i]| + 1] == strs[i] + [0]
  {
    PointerIs(strs, at, i);
    BlockSplit(strs, i);
    assert strs[i..][1..] == strs[i + 1..];
    assert Block(strs[i..]) == strs[i] + [0] + Block(strs[i + 1..]);
  }

  /** The bytes the size precomputation counts for some strings. */
  function StringSpace(strs: seq<seq<Byte>>): nat {
    if strs == [] then 0 else |strs[0]| + 1 + StringSpace(strs[1..])
  }

  lemma {:induction false} BlockSize(strs: seq<seq<Byte>>)
    ensures |Block(strs)| == StringSpace(strs)
    decreases |strs|
  {
    if strs != [] {
      BlockSize(strs[1..]);
    }
  }

  // ---------- The image ----------

  /** The strings at the top of the stack, from the random bytes up. */
  function Strings(a: Args): seq<Byte> {
    RANDOM + (a.path + [0] + (Block(a.envp) + Block(a.argv)))
  }

  function ArgvStrings(a: Args): int { a.top - |Block(a.argv)| }
  function EnvpStrings(a: Args): int { ArgvStrings(a) - |Block(a.envp)| }
  function PathString(a: Args): int { EnvpStrings(a) - (|a.path| + 1) }
  function RandomBytes(a: Args): int { PathString(a) - 16 }

  /** The top of the word area: below the strings, on an 8-byte boundary. */
  function WordsTop(a: Args): int { RandomBytes(a) - RandomBytes(a) % 8 }

  /** The end of the auxiliary vector: owner, random bytes, file name, end marker. */
  function OwnerWords(a: Args): seq<nat>
    requires RandomBytes(a) >= 0
  {
    [11, a.uid]
    + ([12, a.uid] + ([13, a.gid] + ([14, a.gid] + ([25, RandomBytes(a)] + ([31, PathString(a)] + [0, 0])))))
  }

  /** The auxiliary vector, from low to high; the program header entry only when there is one. */
  function Auxv(a: Args): seq<nat>
    requires RandomBytes(a) >= 0
  {
    var rest := [4, 56] + ([5, a.phnum] + ([9, a.entry] + OwnerWords(a)));
    [6, 4096] + (if a.phdr != 0 then [3, a.phdr] + rest else rest)
  }

  /** The words from argc up to the end of the auxiliary vector. */
  function Words(a: Args): seq<nat>
    requires RandomBytes(a) >= 0
  {
    [|a.argv|] + Pointers(a.argv, ArgvStrings(a)) + [0] + Pointers(a.envp, EnvpStrings(a)) + [0] + Auxv(a)
  }

  function WordCount(a: Args): nat {
    |a.argv| + |a.envp| + 3 + (if a.phdr != 0 then 24 else 22)
  }

  /** The address of argc. */
  function ArgcAddress(a: Args): int { WordsTop(a) - 8 * WordCount(a) }

  /** The size the code computes before it writes anything. */
  function TotalSize(a: Args): nat {
    var n := 8 + (|a.argv| + 1) * 8 + (|a.envp| + 1) * 8 + 192
      + StringSpace(a.argv) + StringSpace(a.envp) + |a.path| + 1 + 16;
    (n + 15) / 16 * 16
  }

  ghost predicate Fits(a: Args) {
    TotalSize(a) <= 16384
  }

  /** The 16 KiB below the top, and up to seven bytes more if the top is not aligned. */
  function Lowest(a: Args): int {
    a.top - 16384 - (if a.top % 16 == 0 then 0 else 7)
  }

  /** The widths of the parameters, and a stack area of mapped memory that does not start at 0. */
  ghost predicate Proper(a: Args) {
    && 0 < Lowest(a) && a.top < TWO64
    && a.entry < TWO64 && a.phdr < TWO64 && a.phnum < 65536 && a.uid < 0x1_0000_0000 && a.gid < 0x1_0000_0000
  }

  lemma HalfUp(k: nat, e: nat)
    requires e < 8
    ensures (8 * k + 15 - e) / 16 == (k + 1) / 2
  {
    var j := k / 2;
    assert k == 2 * j || k == 2 * j + 1;
  }

  lemma Sixteens(q: int, r: nat)
    requires r == 0 || r == 8
    ensures (16 * q + r) / 16 == q && (16 * q + r) % 8 == 0
  {
  }

  lemma RoundDown(top: int, k: nat)
    requires top % 16 == 0
    ensures (top - 8 * k) / 16 * 16 == top - (k + 1) / 2 * 16
    ensures (top - 8 * k) % 8 == 0
    ensures (top - 8 * k) / 16 * 16 == top - 8 * k <==> k % 2 == 0
    ensures k % 2 == 1 ==> (top - 8 * k) / 16 * 16 + 8 == top - 8 * k
  {
    var t, j, odd := top / 16, k / 2, k % 2;
    assert top == 16 * t && k == 2 * j + odd && (k + 1) / 2 == j + odd;
    assert top - 8 * k == 16 * (t - j - odd) + 8 * odd;
    Sixteens(t - j - odd, 8 * odd);
  }

  /** Eight-byte units from argc to the top. */
  function Units(a: Args): nat {
    (a.top - RandomBytes(a) + 7) / 8 + WordCount(a)
  }

  lemma UnitsPlace(a: Args)
    requires a.top % 16 == 0
    ensures ArgcAddress(a) == a.top - 8 * Units(a)
  {
    var r, s := RandomBytes(a), a.top - RandomBytes(a);
    assert r - r % 8 == a.top - (s + 7) / 8 * 8 by {
      RoundDownEight(a.top, s);
    }
  }

  lemma RoundDownEight(top: int, s: nat)
    requires top % 16 == 0
    ensures (top - s) - (top - s) % 8 == top - (s + 7) / 8 * 8
  {
    var t, q := top / 16, (s + 7) / 8;
    assert top == 8 * (2 * t);
    assert 8 * q - 7 <= s <= 8 * q;
    assert top - s == 8 * (2 * t - q) + (8 * q - s);
  }

  /**
    * The precomputed size is exact: what lies between argc and the top,
    * rounded to 16, less the entry for a missing phdr.
    */
  lemma SizeIsExact(a: Args)
    requires a.top % 16 == 0
    ensures ArgcAddress(a) / 16 * 16 == a.top - TotalSize(a) + (if a.phdr == 0 then 16 else 0)
    ensures ArgcAddress(a) % 8 == 0
  {
    hide ArgcAddress, Units, TotalSize, RandomBytes;
    UnitsPlace(a);
    SizeInUnits(a);
    RoundDown(a.top, Units(a));
    RoundedSize(a.top - RandomBytes(a), |a.argv| + |a.envp| + 27);
  }

  lemma SizeInUnits(a: Args)
    ensures a.top >= RandomBytes(a)
    ensures var s, w := a.top - RandomBytes(a), |a.argv| + |a.envp| + 27;
            && TotalSize(a) == (s + 8 * w + 15) / 16 * 16
            && Units(a) == (s + 7) / 8 + w - (if a.phdr == 0 then 2 else 0)
  {
    BlockSize(a.argv);
    BlockSize(a.envp);
  }

  /** Rounding the strings up to words and the whole up to 16 is rounding once. */
  lemma RoundedSize(s: nat, w: nat)
    ensures (s + 8 * w + 15) / 16 == ((s + 7) / 8 + w + 1) / 2
  {
    var q := (s + 7) / 8;
    HalfUp(q + w, 8 * q - s);
  }

  /** Everything written lies in the stack area: the 16 KiB below an aligned top, above address 0. */
  lemma StaysInStack(a: Args)
    requires Proper(a) && Fits(a)
    ensures 0 < Lowest(a) <= ArgcAddress(a) <= WordsTop(a) <= RandomBytes(a)
    ensures RandomBytes(a) < PathString(a) < EnvpStrings(a) <= ArgvStrings(a) <= a.top
    ensures |Words(a)| == WordCount(a) && ArgcAddress(a) + 8 * |Words(a)| == WordsTop(a)
    ensures RandomBytes(a) + |Strings(a)| == a.top
  {
    if a.top % 16 == 0 {
      SizeIsExact(a);
    } else {
      SizeIsEnough(a);
    }
  }

  lemma SizeIsEnough(a: Args)
    ensures a.top - TotalSize(a) - 7 <= ArgcAddress(a)
  {
    BlockSize(a.argv);
    BlockSize(a.envp);
    var n := a.top - RandomBytes(a) + 8 * (|a.argv| + |a.envp| + 27);
    assert n <= (n + 15) / 16 * 16 == TotalSize(a);
  }

  /**
   * The ABI wants argc at the stack pointer. The final alignment happens after argc is written,
   * so it is there exactly when the words happen to end on a 16-byte boundary, and 8 bytes above otherwise.
   */
  lemma ArgcAtStackPointerIff(a: Args)
    requires a.top % 16 == 0
    ensures var sp := ArgcAddress(a) / 16 * 16;
            var strings := 16 + |a.path| + 1 + StringSpace(a.envp) + StringSpace(a.argv);
            && (ArgcAddress(a) == sp <==> ((strings + 7) / 8 + |a.argv| + |a.envp| + 3) % 2 == 0)
            && (ArgcAddress(a) != sp ==> ArgcAddress(a) == sp + 8)
  {
    hide ArgcAddress, Units, StringSpace;
    UnitsPlace(a);
    UnitsParity(a);
    RoundDown(a.top, Units(a));
  }

  lemma UnitsParity(a: Args)
    ensures var strings := 16 + |a.path| + 1 + StringSpace(a.envp) + StringSpace(a.argv);
            Units(a) % 2 == ((strings + 7) / 8 + |a.argv| + |a.envp| + 3) % 2
  {
    BlockSize(a.argv);
    BlockSize(a.envp);
    hide StringSpace, Block;
    EvenMore((a.top - RandomBytes(a) + 7) / 8 + |a.argv| + |a.envp| + 3, if a.phdr != 0 then 12 else 11);
  }

  lemma EvenMore(n: nat, k: nat)
    ensures (n + 2 * k) % 2 == n % 2
  {
  }

  /** A program whose argc is not at its stack pointer: no arguments, an empty environment, a path of eight bytes. */
  lemma ArgcMissedExample()
    ensures exists a :: Proper(a) && a.top % 16 == 0 && Fits(a) && ArgcAddress(a) != ArgcAddress(a) / 16 * 16
  {
    var path := [0x2f, 0x62, 0x69, 0x6e, 0x2f, 0x63, 0x61, 0x74];
    var a := Args(0x7FFF_FFFF_F000, path, [], [], 0x40_0000, 0x40_0040, 1, 0, 0);
    assert Proper(a) && Fits(a);
    ArgcAtStackPointerIff(a);
    assert ArgcAddress(a) != ArgcAddress(a) / 16 * 16;
  }

  // ---------- Memory ----------

  function Put(m: seq<Byte>, at: nat, data: seq<Byte>): (r: seq<Byte>)
    requires at + |data| <= |m|
    ensures |r| == |m| && r[at..at + |data|] == data && r[..at] == m[..at] && r[at + |data|..] == m[at + |data|..]
  {
    m[..at] + data + m[at + |data|..]
  }

  lemma PutBelow(m: seq<Byte>, at: nat, data: seq<Byte>, more: seq<Byte>)
    requires |more| <= at && at + |data| <= |m|
    ensures Put(Put(m, at, data), at - |more|, more) == Put(m, at - |more|, more + data)
  {
  }

  /** Memory after the whole image is written. */
  function Image(m: seq<Byte>, a: Args): seq<Byte>
    requires Proper(a) && Fits(a) && a.top <= |m|
  {
    StaysInStack(a);
    Put(Put(m, RandomBytes(a), Strings(a)), ArgcAddress(a), Flat(Words(a)))
  }

  /** Nothing outside the stack area changes. */
  lemma ImageIsLocal(m: seq<Byte>, a: Args)
    requires Proper(a) && Fits(a) && a.top <= |m|
    ensures |Image(m, a)| == |m|
    ensures Image(m, a)[..Lowest(a)] == m[..Lowest(a)] && Image(m, a)[a.top..] == m[a.top..]
  {
    StaysInStack(a);
    hide Strings, Words, Lowest, RandomBytes, ArgcAddress, WordsTop, Fits, Put;
    var inner := Put(m, RandomBytes(a), Strings(a));
    PutIsLocal(m, RandomBytes(a), Strings(a), Lowest(a), a.top);
    PutIsLocal(inner, ArgcAddress(a), Flat(Words(a)), Lowest(a), a.top);
  }

  lemma PutIsLocal(m: seq<Byte>, at: nat, data: seq<Byte>, low: nat, high: nat)
    requires low <= at && at + |data| <= high <= |m|
    ensures Put(m, at, data)[..low] == m[..low] && Put(m, at, data)[high..] == m[high..]
  {
  }

  // ---------- Reading back ----------

  /** One byte of memory; an address past the modelled memory reads as 0. */
  function ByteAt(m: seq<Byte>, at: nat): Byte {
    if at < |m| then m[at] else 0
  }

  function ReadLe(m: seq<Byte>, at: nat, n: nat): nat
    decreases n
  {
    if n == 0 then 0 else ByteAt(m, at) + 256 * ReadLe(m, at + 1, n - 1)
  }

  function WordAt(m: seq<Byte>, at: nat): nat {
    ReadLe(m, at, 8)
  }

  lemma {:induction false} ReadLeIs(m: seq<Byte>, at: nat, n: nat)
    requires at + n <= |m|
    ensures ReadLe(m, at, n) == FromLe(m[at..at + n])
    decreases n
  {
    if n > 0 {
      ReadLeIs(m, at + 1, n - 1);
      assert m[at..at + n][1..] == m[at + 1..at + n];
    }
  }

  lemma SubSlice(m: seq<Byte>, r: nat, t: nat, x: nat, y: nat)
    requires r <= t <= |m| && x <= y <= t - r
    ensures m[r..t][x..y] == m[r + x..r + y]
  {
    var part := m[r..t];
    forall k | 0 <= k < y - x
      ensures part[x..y][k] == m[r + x..r + y][k]
    {
      assert part[x + k] == m[r + x + k];
    }
  }

  lemma PartOf(m: seq<Byte>, r: nat, t: nat, s: seq<Byte>, x: nat, y: nat)
    requires r <= t <= |m| && m[r..t] == s && x <= y <= |s|
    ensures m[r + x..r + y] == s[x..y]
  {
    SubSlice(m, r, t, x, y);
  }

  /** A string without NUL bytes, short enough to read, with its NUL after it. */
  ghost predicate HoldsString(m: seq<Byte>, p: nat, s: seq<Byte>) {
    && p != 0 && |s| < 256
    && (forall k :: 0 <= k < |s| ==> s[k] != 0 && s[k] == ByteAt(m, p + k))
    && ByteAt(m, p + |s|) == 0
  }

  /** The pointer vector at an address lists exactly these strings, within the limits on count and bytes. */
  ghost predicate HoldsVector(m: seq<Byte>, at: nat, strs: seq<seq<Byte>>) {
    && at != 0 && |strs| < 64
    && (forall i :: 0 <= i < |strs| ==> HoldsString(m, WordAt(m, at + 8 * i), strs[i]))
    && WordAt(m, at + 8 * |strs|) == 0
    && StringSpace(strs) <= 32768
  }

  /** At most 63 strings, each NUL-free and of at most 255 bytes. */
  ghost predicate Readable(strs: seq<seq<Byte>>) {
    |strs| < 64 && forall i :: 0 <= i < |strs| ==> |strs[i]| < 256 && forall k :: 0 <= k < |strs[i]| ==> strs[i][k] != 0
  }

  lemma {:induction false} ReadableSpace(strs: seq<seq<Byte>>)
    requires forall i :: 0 <= i < |strs| ==> |strs[i]| < 256
    ensures StringSpace(strs) <= 256 * |strs|
    decreases |strs|
  {
    if strs != [] {
      ReadableSpace(strs[1..]);
    }
  }

  lemma WordFromBytes(m: seq<Byte>, at: nat, v: nat)
    requires at + 8 <= |m| && m[at..at + 8] == ToLe(v, 8) && v < TWO64
    ensures WordAt(m, at) == v
  {
    Powers();
    LeRoundTrip(v, 8);
    ReadLeIs(m, at, 8);
  }

  lemma StringFromBlock(m: seq<Byte>, base: nat, strs: seq<seq<Byte>>, i: nat)
    requires 0 < base && base + |Block(strs)| <= |m| && m[base..base + |Block(strs)|] == Block(strs)
    requires i < |strs| && Readable(strs)
    ensures HoldsString(m, Pointers(strs, base)[i], strs[i])
  {
    hide Block, Pointers, HoldsString;
    PointersInBlock(strs, base, i);
    var s, off := strs[i], |Block(strs[..i])|;
    PartOf(m, base, base + |Block(strs)|, Block(strs), off, off + |s| + 1);
    StringThere(m, Pointers(strs, base)[i], s);
  }

  lemma StringThere(m: seq<Byte>, p: nat, s: seq<Byte>)
    requires 0 < p && p + |s| + 1 <= |m| && m[p..p + |s| + 1] == s + [0]
    requires |s| < 256 && forall k :: 0 <= k < |s| ==> s[k] != 0
    ensures HoldsString(m, p, s)
  {
    var part := m[p..p + |s| + 1];
    assert m[p + |s|] == part[|s|];
    forall k | 0 <= k < |s|
      ensures s[k] == m[p + k]
    {
      assert part[k] == (s + [0])[k];
    }
  }

  lemma WordInRegion(m: seq<Byte>, at: nat, ws: seq<nat>, i: nat)
    requires at + 8 * |ws| <= |m| && m[at..at + 8 * |ws|] == Flat(ws)
    requires i < |ws| && ws[i] < TWO64
    ensures WordAt(m, at + 8 * i) == ws[i]
  {
    hide Flat, WordAt, ToLe;
    var x, y := 8 * i, 8 * i + 8;
    FlatWord(ws, i);
    SubSlice(m, at, at + 8 * |ws|, x, y);
    assert m[at + x..at + y] == ToLe(ws[i], 8);
    WordFromBytes(m, at + x, ws[i]);
  }

  lemma ImageWord(m: seq<Byte>, a: Args, i: nat)
    requires Proper(a) && Fits(a) && a.top <= |m| && i < WordCount(a)
    requires RandomBytes(a) >= 0 && |Words(a)| == WordCount(a) && Words(a)[i] < TWO64 && ArgcAddress(a) >= 0
    ensures WordAt(Image(m, a), ArgcAddress(a) + 8 * i) == Words(a)[i]
  {
    hide Words, Strings, TotalSize, WordCount, WordAt, Flat, Put;
    StaysInStack(a);
    WordInRegion(Image(m, a), ArgcAddress(a), Words(a), i);
  }

  lemma ImageStrings(m: seq<Byte>, a: Args)
    requires Proper(a) && Fits(a) && a.top <= |m| && 0 <= RandomBytes(a) <= a.top
    ensures |Image(m, a)| == |m| && Image(m, a)[RandomBytes(a)..a.top] == Strings(a)
  {
    hide Words, Strings, TotalSize;
    StaysInStack(a);
    var inner, r := Put(m, RandomBytes(a), Strings(a)), RandomBytes(a);
    var gap := WordsTop(a);
    assert inner[r..r + |Strings(a)|] == Strings(a);
    assert Image(m, a)[gap..] == inner[gap..];
    assert Image(m, a)[r..a.top] == Image(m, a)[gap..][r - gap..a.top - gap] == inner[gap..][r - gap..a.top - gap]
           == inner[r..a.top];
  }

  /** The strings of the image stand where the pointers say. */
  lemma ImageBlocks(m: seq<Byte>, a: Args)
    requires Proper(a) && Fits(a) && a.top <= |m|
    ensures 0 < EnvpStrings(a) <= ArgvStrings(a) <= a.top <= |Image(m, a)|
    ensures Image(m, a)[ArgvStrings(a)..a.top] == Block(a.argv)
    ensures Image(m, a)[EnvpStrings(a)..ArgvStrings(a)] == Block(a.envp)
    ensures 0 < PathString(a) && PathString(a) + |a.path| + 1 == EnvpStrings(a)
    ensures Image(m, a)[PathString(a)..EnvpStrings(a)] == a.path + [0]
    ensures 0 < RandomBytes(a) && RandomBytes(a) + 16 == PathString(a)
    ensures Image(m, a)[RandomBytes(a)..PathString(a)] == RANDOM
  {
    hide Words, TotalSize, Image, Block, Lowest, ArgcAddress, WordsTop, Strings, Fits;
    hide RandomBytes, PathString, EnvpStrings, ArgvStrings;
    StaysInStack(a);
    ImageStrings(m, a);
    StringPlaces(a);
    BlocksIn(Image(m, a), a);
  }

  lemma BlocksIn(image: seq<Byte>, a: Args)
    requires 0 < RandomBytes(a) <= a.top <= |image| && image[RandomBytes(a)..a.top] == Strings(a)
    ensures 0 < EnvpStrings(a) <= ArgvStrings(a) <= a.top && 0 < RandomBytes(a) < PathString(a) < EnvpStrings(a)
    ensures image[ArgvStrings(a)..a.top] == Block(a.argv) && image[EnvpStrings(a)..ArgvStrings(a)] == Block(a.envp)
    ensures image[PathString(a)..EnvpStrings(a)] == a.path + [0] && image[RandomBytes(a)..PathString(a)] == RANDOM
  {
    hide Block, Strings, RandomBytes, PathString, EnvpStrings, ArgvStrings;
    StringPlaces(a);
    StringsParts(a);
    var r, s := RandomBytes(a), Strings(a);
    PartOf(image, r, a.top, s, 0, 16);
    PartOf(image, r, a.top, s, 16, EnvpStrings(a) - r);
    PartOf(image, r, a.top, s, EnvpStrings(a) - r, ArgvStrings(a) - r);
    PartOf(image, r, a.top, s, ArgvStrings(a) - r, |s|);
  }

  lemma StringPlaces(a: Args)
    ensures PathString(a) == RandomBytes(a) + 16 && EnvpStrings(a) == PathString(a) + |a.path| + 1
    ensures ArgvStrings(a) == EnvpStrings(a) + |Block(a.envp)| && a.top == ArgvStrings(a) + |Block(a.argv)|
  {
  }

  lemma StringsParts(a: Args)
    ensures var s, p, e := Strings(a), 17 + |a.path|, 17 + |a.path| + |Block(a.envp)|;
            && |s| == e + |Block(a.argv)| && s[0..16] == RANDOM && s[16..p] == a.path + [0]
            && s[p..e] == Block(a.envp) && s[e..|s|] == Block(a.argv)
  {
    hide Block;
    assert Strings(a) == RANDOM + (a.path + [0]) + Block(a.envp) + Block(a.argv);
  }

  lemma PointerBelow(strs: seq<seq<Byte>>, at: nat, i: nat)
    requires i < |strs|
    ensures at <= Pointers(strs, at)[i] < at + |Block(strs)|
  {
    PointersInBlock(strs, at, i);
  }

  lemma WordsParts(a: Args)
    requires RandomBytes(a) >= 0 && ArgvStrings(a) >= 0 && EnvpStrings(a) >= 0
    ensures |Words(a)| == WordCount(a) > 2 + |a.argv| + |a.envp|
    ensures Words(a)[0] == |a.argv|
    ensures Words(a)[1..1 + |a.argv|] == Pointers(a.argv, ArgvStrings(a))
    ensures Words(a)[1 + |a.argv|] == 0
    ensures Words(a)[2 + |a.argv|..2 + |a.argv| + |a.envp|] == Pointers(a.envp, EnvpStrings(a))
    ensures Words(a)[2 + |a.argv| + |a.envp|] == 0
    ensures Words(a)[3 + |a.argv| + |a.envp|..] == Auxv(a)
  {
  }

  lemma VectorInImage(m: seq<Byte>, a: Args, first: nat, strs: seq<seq<Byte>>, base: nat)
    requires Proper(a) && Fits(a) && a.top <= |m| && Readable(strs)
    requires RandomBytes(a) >= 0 && |Words(a)| == WordCount(a) && ArgcAddress(a) > 0
    requires first + |strs| < WordCount(a)
    requires Words(a)[first..first + |strs|] == Pointers(strs, base) && Words(a)[first + |strs|] == 0
    requires 0 < base && base + |Block(strs)| <= a.top <= |Image(m, a)|
    requires Image(m, a)[base..base + |Block(strs)|] == Block(strs)
    ensures HoldsVector(Image(m, a), ArgcAddress(a) + 8 * first, strs)
  {
    hide Words, ArgcAddress, TotalSize, WordCount, Image, RandomBytes, HoldsString, Block, Pointers, WordAt, ReadLe;
    var at := ArgcAddress(a) + 8 * first;
    forall i | 0 <= i < |strs|
      ensures HoldsString(Image(m, a), WordAt(Image(m, a), at + 8 * i), strs[i])
    {
      PointerBelow(strs, base, i);
      assert Words(a)[first + i] == Words(a)[first..first + |strs|][i] == Pointers(strs, base)[i];
      ImageWord(m, a, first + i);
      StringFromBlock(Image(m, a), base, strs, i);
    }
    ImageWord(m, a, first + |strs|);
    ReadableSpace(strs);
  }

  lemma ImageHoldsArgv(m: seq<Byte>, a: Args)
    requires Proper(a) && Fits(a) && a.top <= |m| && Readable(a.argv)
    ensures ArgcAddress(a) > 0 && HoldsVector(Image(m, a), ArgcAddress(a) + 8, a.argv)
  {
    hide TotalSize, Image, Words, HoldsVector, Readable, Block, Pointers, WordCount, RandomBytes, WordAt, ReadLe;
    StaysInStack(a);
    WordsParts(a);
    ImageBlocks(m, a);
    VectorInImage(m, a, 1, a.argv, ArgvStrings(a));
  }

  lemma ImageHoldsEnvp(m: seq<Byte>, a: Args)
    requires Proper(a) && Fits(a) && a.top <= |m| && Readable(a.envp)
    ensures ArgcAddress(a) > 0 && HoldsVector(Image(m, a), ArgcAddress(a) + 16 + 8 * |a.argv|, a.envp)
  {
    hide TotalSize, Image, Words, HoldsVector, Readable, Block, Pointers, WordCount, RandomBytes, WordAt, ReadLe;
    StaysInStack(a);
    WordsParts(a);
    ImageBlocks(m, a);
    VectorInImage(m, a, 2 + |a.argv|, a.envp, EnvpStrings(a));
  }

  /** Read back from the image, the vectors list the original arguments and environment. */
  lemma ImageHoldsVectors(m: seq<Byte>, a: Args)
    requires Proper(a) && Fits(a) && a.top <= |m|
    ensures ArgcAddress(a) > 0 && WordAt(Image(m, a), ArgcAddress(a)) == |a.argv|
    ensures Readable(a.argv) ==> HoldsVector(Image(m, a), ArgcAddress(a) + 8, a.argv)
    ensures Readable(a.envp) ==> HoldsVector(Image(m, a), ArgcAddress(a) + 16 + 8 * |a.argv|, a.envp)
  {
    hide TotalSize, Image, Words, HoldsVector, Readable, Block, Pointers, WordCount, RandomBytes, WordAt, ReadLe;
    StaysInStack(a);
    WordsParts(a);
    FewArguments(a);
    ImageWord(m, a, 0);
    if Readable(a.argv) {
      ImageHoldsArgv(m, a);
    }
    if Readable(a.envp) {
      ImageHoldsEnvp(m, a);
    }
  }

  // ---------- The auxiliary vector ----------

  const AT_NULL := 0
  const AT_PHDR := 3
  const AT_PHENT := 4
  const AT_PHNUM := 5
  const AT_PAGESZ := 6
  const AT_ENTRY := 9
  const AT_UID := 11
  const AT_EUID := 12
  const AT_GID := 13
  const AT_EGID := 14
  const AT_RANDOM := 25
  const AT_EXECFN := 31

  function AuxKey(m: seq<Byte>, at: nat, i: nat): nat { WordAt(m, at + 16 * i) }

  /** The i-th entry of a vector is the first for its key, and the vector has not ended before it. */
  ghost predicate AuxAt(m: seq<Byte>, at: nat, i: nat, key: nat, value: nat) {
    && AuxKey(m, at, i) == key && WordAt(m, at + 16 * i + 8) == value
    && forall j :: 0 <= j < i ==> AuxKey(m, at, j) != key && AuxKey(m, at, j) != AT_NULL
  }

  /** What a program finds when it looks up a key. */
  ghost predicate Finds(m: seq<Byte>, at: nat, key: nat, value: nat) {
    exists i :: AuxAt(m, at, i, key, value)
  }

  /** The vector ends without the key. */
  ghost predicate FindsNone(m: seq<Byte>, at: nat, key: nat) {
    exists i: nat :: AuxKey(m, at, i) == AT_NULL && forall j :: 0 <= j <= i ==> AuxKey(m, at, j) != key
  }

  ghost predicate BytesAt(m: seq<Byte>, at: nat, s: seq<Byte>) {
    at + |s| <= |m| && m[at..at + |s|] == s
  }

  /** What the vector at an address tells the program. */
  ghost predicate AuxvTells(m: seq<Byte>, at: nat, a: Args) {
    && Finds(m, at, AT_PAGESZ, 4096) && Finds(m, at, AT_PHENT, 56)
    && Finds(m, at, AT_PHNUM, a.phnum) && Finds(m, at, AT_ENTRY, a.entry)
    && (if a.phdr != 0 then Finds(m, at, AT_PHDR, a.phdr) else FindsNone(m, at, AT_PHDR))
    && Finds(m, at, AT_UID, a.uid) && Finds(m, at, AT_EUID, a.uid)
    && Finds(m, at, AT_GID, a.gid) && Finds(m, at, AT_EGID, a.gid)
    && (exists p :: Finds(m, at, AT_RANDOM, p) && BytesAt(m, p, RANDOM))
    && (exists p :: Finds(m, at, AT_EXECFN, p) && BytesAt(m, p, a.path + [0]))
  }

  function AuxvAddress(a: Args): int { ArgcAddress(a) + 8 * (3 + |a.argv| + |a.envp|) }

  /** The words of a vector two by two: the i-th key and its value, and no such key or end marker before. */
  ghost predicate PairAt(ws: seq<nat>, i: nat, key: nat, value: nat) {
    && 2 * i + 1 < |ws| && ws[2 * i] == key && ws[2 * i + 1] == value
    && forall j :: 0 <= j < i ==> ws[2 * j] != key && ws[2 * j] != AT_NULL
  }

  lemma PairBehind(front: seq<nat>, ws: seq<nat>, n: nat, i: nat, key: nat, value: nat)
    requires |front| == 2 * n && PairAt(ws, i, key, value)
    requires forall j :: 0 <= j < n ==> front[2 * j] != key && front[2 * j] != AT_NULL
    ensures PairAt(front + ws, n + i, key, value)
  {
    var all := front + ws;
    assert all[2 * (n + i)] == ws[2 * i] && all[2 * (n + i) + 1] == ws[2 * i + 1];
    forall j | 0 <= j < n + i
      ensures all[2 * j] != key && all[2 * j] != AT_NULL
    {
      if j >= n {
        assert all[2 * j] == ws[2 * (j - n)];
      }
    }
  }

  /** The entries before the owner's. */
  function ProgramWords(a: Args): (ws: seq<nat>)
    ensures |ws| == 2 * ProgramCount(a)
  {
    if a.phdr != 0 then [6, 4096, 3, a.phdr, 4, 56, 5, a.phnum, 9, a.entry]
    else [6, 4096, 4, 56, 5, a.phnum, 9, a.entry]
  }

  function ProgramCount(a: Args): nat { if a.phdr != 0 then 5 else 4 }

  lemma TwoParts(a: Args)
    requires RandomBytes(a) >= 0
    ensures Auxv(a) == ProgramWords(a) + OwnerWords(a) && |OwnerWords(a)| == 14
  {
    hide RandomBytes;
  }

  lemma OwnerPairs(a: Args)
    requires RandomBytes(a) >= 0
    ensures var ws := OwnerWords(a);
            && PairAt(ws, 0, AT_UID, a.uid) && PairAt(ws, 1, AT_EUID, a.uid)
            && PairAt(ws, 2, AT_GID, a.gid) && PairAt(ws, 3, AT_EGID, a.gid)
            && PairAt(ws, 4, AT_RANDOM, RandomBytes(a)) && PairAt(ws, 5, AT_EXECFN, PathString(a))
            && PairAt(ws, 6, AT_NULL, 0)
  {
    hide RandomBytes, PathString;
  }

  lemma ProgramPairs(a: Args)
    ensures var ws, k := ProgramWords(a), ProgramCount(a);
            && PairAt(ws, 0, AT_PAGESZ, 4096) && PairAt(ws, k - 3, AT_PHENT, 56)
            && PairAt(ws, k - 2, AT_PHNUM, a.phnum) && PairAt(ws, k - 1, AT_ENTRY, a.entry)
            && (a.phdr != 0 ==> PairAt(ws, 1, AT_PHDR, a.phdr))
    ensures forall j :: 0 <= j < ProgramCount(a) ==> ProgramWords(a)[2 * j] in {3, 4, 5, 6, 9}
    ensures a.phdr == 0 ==> forall j :: 0 <= j < ProgramCount(a) ==> ProgramWords(a)[2 * j] != 3
  {
  }

  lemma AuxvFits(a: Args)
    requires Proper(a) && Fits(a)
    ensures RandomBytes(a) >= 0 && forall i :: 0 <= i < |Auxv(a)| ==> Auxv(a)[i] < TWO64
  {
    hide TotalSize, Auxv;
    StaysInStack(a);
    TwoParts(a);
    assert forall i :: 0 <= i < 14 ==> OwnerWords(a)[i] < TWO64;
    assert forall i :: 0 <= i < |ProgramWords(a)| ==> ProgramWords(a)[i] < TWO64;
  }

  lemma AuxWord(m: seq<Byte>, a: Args, i: nat)
    requires Proper(a) && Fits(a) && a.top <= |m| && RandomBytes(a) >= 0 && i < |Auxv(a)|
    ensures AuxvAddress(a) >= 0 && WordAt(Image(m, a), AuxvAddress(a) + 8 * i) == Auxv(a)[i]
  {
    hide Words, Auxv, TotalSize, WordAt, Image, Lowest, RandomBytes, EnvpStrings, ArgvStrings, WordsTop, ArgcAddress;
    StaysInStack(a);
    WordsParts(a);
    AuxvFits(a);
    var k := 3 + |a.argv| + |a.envp|;
    assert Words(a)[k..][i] == Words(a)[k + i];
    ImageWord(m, a, k + i);
  }

  /** An entry of the vector as a value is found in the vector in memory. */
  lemma PairFound(m: seq<Byte>, a: Args, i: nat, key: nat, value: nat)
    requires Proper(a) && Fits(a) && a.top <= |m| && RandomBytes(a) >= 0 && PairAt(Auxv(a), i, key, value)
    ensures AuxvAddress(a) >= 0 && AuxAt(Image(m, a), AuxvAddress(a), i, key, value)
    ensures Finds(Image(m, a), AuxvAddress(a), key, value)
  {
    hide Auxv, TotalSize, WordAt, Image, Lowest, RandomBytes, AuxvAddress;
    AuxWord(m, a, 2 * i);
    AuxWord(m, a, 2 * i + 1);
    forall j | 0 <= j < i
      ensures AuxKey(Image(m, a), AuxvAddress(a), j) == Auxv(a)[2 * j]
    {
      AuxWord(m, a, 2 * j);
    }
  }

  lemma OwnerFound(m: seq<Byte>, a: Args, i: nat, key: nat, value: nat)
    requires Proper(a) && Fits(a) && a.top <= |m| && RandomBytes(a) >= 0 && PairAt(OwnerWords(a), i, key, value)
    requires key !in {3, 4, 5, 6, 9}
    ensures AuxvAddress(a) >= 0 && Finds(Image(m, a), AuxvAddress(a), key, value)
  {
    hide Auxv, TotalSize, Image, RandomBytes, AuxvAddress, OwnerWords, ProgramWords, PairAt, Finds;
    TwoParts(a);
    ProgramPairs(a);
    PairBehind(ProgramWords(a), OwnerWords(a), ProgramCount(a), i, key, value);
    PairFound(m, a, ProgramCount(a) + i, key, value);
  }

  lemma ProgramFound(m: seq<Byte>, a: Args, i: nat, key: nat, value: nat)
    requires Proper(a) && Fits(a) && a.top <= |m| && RandomBytes(a) >= 0 && PairAt(ProgramWords(a), i, key, value)
    ensures AuxvAddress(a) >= 0 && Finds(Image(m, a), AuxvAddress(a), key, value)
  {
    hide Auxv, TotalSize, Image, RandomBytes, AuxvAddress, OwnerWords, ProgramWords, Finds;
    TwoParts(a);
    PairFound(m, a, i, key, value);
  }

  /** Without a program header address the vector ends before any such entry. */
  lemma NoPhdrFound(m: seq<Byte>, a: Args)
    requires Proper(a) && Fits(a) && a.top <= |m| && RandomBytes(a) >= 0 && a.phdr == 0
    ensures AuxvAddress(a) >= 0 && FindsNone(Image(m, a), AuxvAddress(a), AT_PHDR)
  {
    hide TotalSize, Image, RandomBytes, PathString, AuxvAddress, WordAt;
    AuxWord(m, a, 20);
    forall j | 0 <= j < 11
      ensures AuxKey(Image(m, a), AuxvAddress(a), j) == Auxv(a)[2 * j]
    {
      AuxWord(m, a, 2 * j);
    }
    assert AuxKey(Image(m, a), AuxvAddress(a), 10) == AT_NULL;
  }

  /** A program that looks up its auxiliary vector in the image finds what `execve` was given. */
  lemma ImageTellsAuxv(m: seq<Byte>, a: Args)
    requires Proper(a) && Fits(a) && a.top <= |m|
    ensures AuxvAddress(a) >= 0 && AuxvTells(Image(m, a), AuxvAddress(a), a)
  {
    hide TotalSize, Image, Auxv, OwnerWords, ProgramWords, RandomBytes, PathString, EnvpStrings, ArgvStrings;
    hide AuxvAddress, Finds, FindsNone, PairAt, Lowest, Block, ArgcAddress, WordsTop, Strings;
    AuxvFits(a);
    ProgramPairs(a);
    ProgramFound(m, a, 0, AT_PAGESZ, 4096);
    ProgramFound(m, a, ProgramCount(a) - 3, AT_PHENT, 56);
    ProgramFound(m, a, ProgramCount(a) - 2, AT_PHNUM, a.phnum);
    ProgramFound(m, a, ProgramCount(a) - 1, AT_ENTRY, a.entry);
    if a.phdr != 0 {
      ProgramFound(m, a, 1, AT_PHDR, a.phdr);
    } else {
      NoPhdrFound(m, a);
    }
    OwnerPairs(a);
    OwnerFound(m, a, 0, AT_UID, a.uid);
    OwnerFound(m, a, 1, AT_EUID, a.uid);
    OwnerFound(m, a, 2, AT_GID, a.gid);
    OwnerFound(m, a, 3, AT_EGID, a.gid);
    ImageBlocks(m, a);
    OwnerFound(m, a, 4, AT_RANDOM, RandomBytes(a));
    OwnerFound(m, a, 5, AT_EXECFN, PathString(a));
  }

  lemma FewArguments(a: Args)
    requires Fits(a)
    ensures |a.argv| < 2048
  {
  }
}
