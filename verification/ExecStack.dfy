/** The stack builder and the vector reader, run on user memory in place. */
module ExecStack {
  import opened Wrappers
  import opened LittleEndian
  import opened StackLayout

  datatype ErrorCode = EFAULT | E2BIG

  const MAX_COUNT := 64
  const MAX_STRLEN := 256
  const MAX_TOTAL_BYTES := 32768

  lemma PutAppend(m: seq<Byte>, at: nat, d: seq<Byte>, e: seq<Byte>)
    requires at + |d| + |e| <= |m|
    ensures Put(Put(m, at, d), at + |d|, e) == Put(m, at, d + e)
  {
  }

  lemma FlatTwo(t: nat, v: nat, ws: seq<nat>)
    ensures ToLe(t, 8) + ToLe(v, 8) + Flat(ws) == Flat([t, v] + ws)
    ensures ToLe(v, 8) + Flat(ws) == Flat([v] + ws)
  {
    assert ([v] + ws)[1..] == ws && ([t, v] + ws)[1..] == [v] + ws;
  }

  lemma NoStrings(strs: seq<seq<Byte>>, above: seq<Byte>, at: nat)
    ensures Block(strs[|strs|..]) == [] && Pointers(strs[|strs|..], at) == [] && [] + above == above
  {
  }

  lemma OneMoreString(strs: seq<seq<Byte>>, i: nat, at: int, above: seq<Byte>)
    requires i < |strs|
    ensures Block(strs[i..]) + above == strs[i] + [0] + (Block(strs[i + 1..]) + above)
    ensures |Block(strs[i..])| == |strs[i]| + 1 + |Block(strs[i + 1..])|
    ensures |Block(strs[i..])| <= |Block(strs)|
    ensures at >= 0 ==> Pointers(strs[i..], at) == [at] + Pointers(strs[i + 1..], at + |strs[i]| + 1)
  {
    BlockSplit(strs, i);
    assert strs[i..][1..] == strs[i + 1..];
  }

  lemma NothingPut(m: seq<Byte>, at: nat)
    requires at <= |m|
    ensures Put(m, at, []) == m && Flat([]) == []
  {
  }

  lemma WordSizes(a: Args)
    requires RandomBytes(a) >= 0
    ensures 8 * |Auxv(a)| + 8 * (|a.argv| + |a.envp| + 3) == 8 * WordCount(a) >= 200
  {
  }

  lemma PointersSmall(a: Args)
    requires Proper(a) && 0 <= EnvpStrings(a) <= ArgvStrings(a)
    ensures forall i :: 0 <= i < |a.argv| ==> Pointers(a.argv, ArgvStrings(a))[i] < TWO64
    ensures forall i :: 0 <= i < |a.envp| ==> Pointers(a.envp, EnvpStrings(a))[i] < TWO64
  {
    forall i | 0 <= i < |a.argv|
      ensures Pointers(a.argv, ArgvStrings(a))[i] < TWO64
    {
      PointerBelow(a.argv, ArgvStrings(a), i);
    }
    forall i | 0 <= i < |a.envp|
      ensures Pointers(a.envp, EnvpStrings(a))[i] < TWO64
    {
      PointerBelow(a.envp, EnvpStrings(a), i);
    }
  }

  lemma WordsOf(a: Args, argvPtrs: seq<nat>, envpPtrs: seq<nat>)
    requires RandomBytes(a) >= 0 && ArgvStrings(a) >= 0 && EnvpStrings(a) >= 0
    requires argvPtrs == Pointers(a.argv, ArgvStrings(a)) && envpPtrs == Pointers(a.envp, EnvpStrings(a))
    ensures [|a.argv|] + (argvPtrs + [0] + (envpPtrs + [0] + Auxv(a))) == Words(a)
  {
    hide Auxv, Pointers, RandomBytes, ArgvStrings, EnvpStrings;
  }

  lemma ImageIs(m: seq<Byte>, a: Args)
    requires Proper(a) && Fits(a) && a.top <= |m|
    requires 0 <= RandomBytes(a) && RandomBytes(a) + |Strings(a)| == a.top
    requires 0 <= ArgcAddress(a) && ArgcAddress(a) + 8 * |Words(a)| <= a.top
    ensures Image(m, a) == Put(Put(m, RandomBytes(a), Strings(a)), ArgcAddress(a), Flat(Words(a)))
  {
  }

  lemma StringBytes(m: seq<Byte>, p: nat, s: seq<Byte>, k: nat)
    requires HoldsString(m, p, s) && k < |s|
    ensures ByteAt(m, p + k) != 0
  {
    assert s[k] != 0;
  }

  lemma TooLong(m: seq<Byte>, p: nat, s: seq<Byte>)
    requires |s| == 256 && forall k :: 0 <= k < 256 ==> s[k] != 0 && s[k] == ByteAt(m, p + k)
    ensures forall t :: !HoldsString(m, p, t)
  {
    forall t: seq<Byte>
      ensures !HoldsString(m, p, t)
    {
      if |t| < 256 {
        assert s[|t|] == ByteAt(m, p + |t|);
      }
    }
  }

  lemma VectorWords(m: seq<Byte>, at: nat, t: seq<seq<Byte>>, k: nat)
    requires HoldsVector(m, at, t) && k < |t|
    ensures WordAt(m, at + 8 * k) != 0 && HoldsString(m, WordAt(m, at + 8 * k), t[k])
  {
  }

  lemma SameString(m: seq<Byte>, p: nat, s: seq<Byte>, t: seq<Byte>)
    requires HoldsString(m, p, s) && HoldsString(m, p, t)
    ensures s == t
  {
    if |s| < |t| {
      StringBytes(m, p, t, |s|);
    } else if |t| < |s| {
      StringBytes(m, p, s, |t|);
    }
  }

  lemma EndsHere(m: seq<Byte>, at: nat, strs: seq<seq<Byte>>)
    requires WordAt(m, at + 8 * |strs|) == 0
    ensures forall t :: HoldsVector(m, at, t) && strs <= t ==> t == strs
  {
    forall t | HoldsVector(m, at, t) && strs <= t
      ensures t == strs
    {
      if |strs| < |t| {
        VectorWords(m, at, t, |strs|);
      }
    }
  }

  lemma NextString(m: seq<Byte>, at: nat, strs: seq<seq<Byte>>, ptr: nat, s: Result<seq<Byte>, ErrorCode>)
    requires ptr == WordAt(m, at + 8 * |strs|) != 0
    requires forall t :: HoldsString(m, ptr, t) ==> s == Ok(t)
    requires forall t :: HoldsVector(m, at, t) ==> strs <= t
    ensures forall t :: HoldsVector(m, at, t) ==> s.Ok? && strs + [s.value] <= t
  {
    hide WordAt, HoldsString;
    forall t | HoldsVector(m, at, t)
      ensures s.Ok? && strs + [s.value] <= t
    {
      assert |strs| < |t| by {
        assert strs <= t && WordAt(m, at + 8 * |t|) == 0;
      }
      assert HoldsString(m, WordAt(m, at + 8 * |strs|), t[|strs|]);
    }
  }

  lemma {:induction false} SpaceSnoc(strs: seq<seq<Byte>>, s: seq<Byte>)
    ensures StringSpace(strs + [s]) == StringSpace(strs) + |s| + 1
    decreases |strs|
  {
    if strs == [] {
      assert strs + [s] == [s];
    } else {
      assert (strs + [s])[1..] == strs[1..] + [s];
      SpaceSnoc(strs[1..], s);
    }
  }

  lemma {:induction false} SpacePrefix(strs: seq<seq<Byte>>, t: seq<seq<Byte>>)
    requires strs <= t
    ensures StringSpace(strs) <= StringSpace(t)
    decreases |strs|
  {
    if strs != [] {
      SpacePrefix(strs[1..], t[1..]);
    }
  }

  lemma SpaceGrows(m: seq<Byte>, at: nat, strs: seq<seq<Byte>>)
    requires StringSpace(strs) > 32768
    ensures forall t :: HoldsVector(m, at, t) ==> !(strs <= t)
  {
    forall t | strs <= t
      ensures !HoldsVector(m, at, t)
    {
      SpacePrefix(strs, t);
    }
  }

  class UserMemory {
    var bytes: seq<Byte>

    /** Copies bytes to a mapped address; address 0 is refused. */
    method WriteUserMemory(addr: nat, data: seq<Byte>) returns (r: Result<(), ErrorCode>)
      requires addr + |data| <= |bytes|
      modifies this
      ensures addr == 0 ==> r == Err(EFAULT) && bytes == old(bytes)
      ensures addr != 0 ==> r == Ok(()) && bytes == Put(old(bytes), addr, data)
    {
      if addr == 0 {
        return Err(EFAULT);
      }
      bytes := bytes[..addr] + data + bytes[addr + |data|..];
      return Ok(());
    }

    /** Writes one string and its NUL below `sp`; `above` is what stands there already. */
    method PushString(s: seq<Byte>, sp: nat, ghost m: seq<Byte>, ghost above: seq<Byte>) returns (sp': nat)
      requires |s| + 1 < sp && sp + |above| <= |m| && bytes == Put(m, sp, above)
      modifies this
      ensures sp' == sp - (|s| + 1) && bytes == Put(m, sp', s + [0] + above)
    {
      hide Put;
      sp' := sp - (|s| + 1);
      var _ := WriteUserMemory(sp', s);
      var _ := WriteUserMemory(sp' + |s|, [0]);
      PutAppend(Put(m, sp, above), sp', s, [0]);
      PutBelow(m, sp, above, s + [0]);
    }

    /** Writes strings downwards, the last one first. */
    method PushStrings(strs: seq<seq<Byte>>, sp: nat, ghost m: seq<Byte>, ghost above: seq<Byte>)
      returns (sp': nat, ptrs: seq<nat>)
      requires |Block(strs)| < sp && sp + |above| <= |m| && bytes == Put(m, sp, above)
      modifies this
      ensures sp' == sp - |Block(strs)| && ptrs == Pointers(strs, sp')
      ensures bytes == Put(m, sp', Block(strs) + above)
    {
      hide Put, Block, Pointers;
      sp', ptrs := sp, [];
      var i := |strs|;
      NoStrings(strs, above, sp);
      while i > 0
        invariant 0 <= i <= |strs|
        invariant |Block(strs[i..])| <= |Block(strs)|
        invariant sp' == sp - |Block(strs[i..])| && ptrs == Pointers(strs[i..], sp')
        invariant bytes == Put(m, sp', Block(strs[i..]) + above)
      {
        i := i - 1;
        OneMoreString(strs, i, sp' - (|strs[i]| + 1), above);
        sp' := PushString(strs[i], sp', m, Block(strs[i + 1..]) + above);
        ptrs := [sp'] + ptrs;
      }
      assert strs[0..] == strs;
    }

    method PushWord(sp: nat, v: nat, ghost m: seq<Byte>, ghost ws: seq<nat>) returns (sp': nat)
      requires 8 < sp && v < TWO64 && sp + 8 * |ws| <= |m| && bytes == Put(m, sp, Flat(ws))
      modifies this
      ensures sp' == sp - 8 && bytes == Put(m, sp', Flat([v] + ws))
    {
      hide Put, Flat;
      sp' := sp - 8;
      var _ := WriteUserMemory(sp', ToLe(v, 8));
      PutBelow(m, sp, Flat(ws), ToLe(v, 8));
      FlatTwo(v, v, ws);
    }

    /** One entry of the auxiliary vector. */
    method PushPair(sp: nat, t: nat, v: nat, ghost m: seq<Byte>, ghost ws: seq<nat>) returns (sp': nat)
      requires 16 < sp && t < TWO64 && v < TWO64 && sp + 8 * |ws| <= |m| && bytes == Put(m, sp, Flat(ws))
      modifies this
      ensures sp' == sp - 16 && bytes == Put(m, sp', Flat([t, v] + ws))
    {
      hide Put, Flat;
      sp' := sp - 16;
      var _ := WriteUserMemory(sp', ToLe(t, 8));
      var _ := WriteUserMemory(sp' + 8, ToLe(v, 8));
      PutAppend(Put(m, sp, Flat(ws)), sp', ToLe(t, 8), ToLe(v, 8));
      PutBelow(m, sp, Flat(ws), ToLe(t, 8) + ToLe(v, 8));
      FlatTwo(t, v, ws);
    }

    /** A NULL, then the pointers downwards, the last one first. */
    method PushPointers(sp: nat, ptrs: seq<nat>, ghost m: seq<Byte>, ghost ws: seq<nat>) returns (sp': nat)
      requires 8 * (|ptrs| + 1) < sp && (forall i :: 0 <= i < |ptrs| ==> ptrs[i] < TWO64)
      requires sp + 8 * |ws| <= |m| && bytes == Put(m, sp, Flat(ws))
      modifies this
      ensures sp' == sp - 8 * (|ptrs| + 1) && bytes == Put(m, sp', Flat(ptrs + [0] + ws))
    {
      hide Put, Flat;
      sp' := PushWord(sp, 0, m, ws);
      var i := |ptrs|;
      assert ptrs[i..] + ([0] + ws) == [0] + ws;
      while i > 0
        invariant 0 <= i <= |ptrs| && sp' == sp - 8 * (|ptrs| - i + 1)
        invariant bytes == Put(m, sp', Flat(ptrs[i..] + ([0] + ws)))
      {
        i := i - 1;
        sp' := PushWord(sp', ptrs[i], m, ptrs[i + 1..] + ([0] + ws));
        assert [ptrs[i]] + (ptrs[i + 1..] + ([0] + ws)) == ptrs[i..] + ([0] + ws);
      }
      assert ptrs[0..] + ([0] + ws) == ptrs + [0] + ws;
    }

    /** The auxiliary vector, from its end marker down. */
    method PushAuxv(a: Args, sp: nat, ghost m: seq<Byte>) returns (sp': nat)
      requires Proper(a) && 192 < sp <= |m| && 0 <= RandomBytes(a) < PathString(a) < TWO64
      requires bytes == Put(m, sp, Flat([]))
      modifies this
      ensures sp' == sp - 8 * |Auxv(a)| && bytes == Put(m, sp', Flat(Auxv(a)))
    {
      hide Put, Flat, OwnerWords, RandomBytes, PathString;
      sp' := PushOwner(a, sp, m);
      ghost var ws := OwnerWords(a);
      sp' := PushPair(sp', 9, a.entry, m, ws);
      ws := [9, a.entry] + ws;
      sp' := PushPair(sp', 5, a.phnum, m, ws);
      ws := [5, a.phnum] + ws;
      sp' := PushPair(sp', 4, 56, m, ws);
      ws := [4, 56] + ws;
      if a.phdr != 0 {
        sp' := PushPair(sp', 3, a.phdr, m, ws);
        ws := [3, a.phdr] + ws;
      }
      sp' := PushPair(sp', 6, 4096, m, ws);
    }

    method PushOwner(a: Args, sp: nat, ghost m: seq<Byte>) returns (sp': nat)
      requires Proper(a) && 112 < sp <= |m| && 0 <= RandomBytes(a) < PathString(a) < TWO64
      requires bytes == Put(m, sp, Flat([]))
      modifies this
      ensures |OwnerWords(a)| == 14 && sp' == sp - 112 && bytes == Put(m, sp', Flat(OwnerWords(a)))
    {
      hide Put, Flat, RandomBytes, PathString;
      sp' := PushPair(sp, 0, 0, m, []);
      ghost var ws: seq<nat> := [0, 0];
      assert ws + [] == ws;
      sp' := PushPair(sp', 31, PathString(a), m, ws);
      ws := [31, PathString(a)] + ws;
      sp' := PushPair(sp', 25, RandomBytes(a), m, ws);
      ws := [25, RandomBytes(a)] + ws;
      sp' := PushPair(sp', 14, a.gid, m, ws);
      ws := [14, a.gid] + ws;
      sp' := PushPair(sp', 13, a.gid, m, ws);
      ws := [13, a.gid] + ws;
      sp' := PushPair(sp', 12, a.uid, m, ws);
      ws := [12, a.uid] + ws;
      sp' := PushPair(sp', 11, a.uid, m, ws);
    }

    /** The strings, the path and the random bytes, downwards from the top. */
    method WriteStrings(a: Args) returns (sp: nat, argvPtrs: seq<nat>, envpPtrs: seq<nat>)
      requires a.top <= |bytes|
      requires 0 < RandomBytes(a) && RandomBytes(a) + |Strings(a)| == a.top
      modifies this
      ensures sp == RandomBytes(a) && bytes == Put(old(bytes), RandomBytes(a), Strings(a))
      ensures ArgvStrings(a) >= 0 && argvPtrs == Pointers(a.argv, ArgvStrings(a))
      ensures EnvpStrings(a) >= 0 && envpPtrs == Pointers(a.envp, EnvpStrings(a))
    {
      hide Put, Block, Pointers;
      ghost var m := bytes;
      NothingPut(m, a.top);
      sp, argvPtrs := PushStrings(a.argv, a.top, m, []);
      assert Block(a.argv) + [] == Block(a.argv);
      sp, envpPtrs := PushStrings(a.envp, sp, m, Block(a.argv));
      sp := PushString(a.path, sp, m, Block(a.envp) + Block(a.argv));
      PutBelow(m, sp, a.path + [0] + (Block(a.envp) + Block(a.argv)), RANDOM);
      sp := sp - 16;
      var _ := WriteUserMemory(sp, RANDOM);
    }

    /** Builds the stack of a new program and gives its stack pointer, or refuses what does not fit in four pages. */
    method SetupUserStack(a: Args) returns (r: Result<nat, ErrorCode>)
      requires Proper(a) && a.top <= |bytes|
      modifies this
      ensures r.Ok? <==> Fits(a)
      ensures r.Err? ==> r.error == E2BIG && bytes == old(bytes)
      ensures r.Ok? ==> bytes == Image(old(bytes), a)
      ensures r.Ok? && a.top % 16 == 0 ==> r.value == a.top - TotalSize(a) + (if a.phdr == 0 then 16 else 0)
      ensures r.Ok? ==> r.value % 16 == 0 && r.value <= ArgcAddress(a) < r.value + 16
      ensures r.Ok? ==> AuxvAddress(a) >= 0 && AuxvTells(bytes, AuxvAddress(a), a)
    {
      hide Put, Flat, TotalSize, Strings, Words, Pointers, Image, WordCount, ArgcAddress, ArgvStrings, EnvpStrings;
      hide AuxvTells, AuxvAddress;
      var total := ComputeSize(a);
      if total > 16384 {
        return Err(E2BIG);
      }
      StaysInStack(a);
      FewArguments(a);
      ghost var m := bytes;
      var sp, argvPtrs, envpPtrs := WriteStrings(a);
      sp := sp - sp % 8;
      sp := WriteWords(a, sp, argvPtrs, envpPtrs);
      ImageIs(m, a);
      ImageTellsAuxv(m, a);
      if a.top % 16 == 0 {
        SizeIsExact(a);
      }
      return Ok(sp / 16 * 16);
    }

    /** The auxiliary vector, the two pointer vectors and argc. */
    method WriteWords(a: Args, top: nat, argvPtrs: seq<nat>, envpPtrs: seq<nat>) returns (sp: nat)
      requires Proper(a) && top == WordsTop(a) <= |bytes| && 0 < ArgcAddress(a)
      requires 0 <= RandomBytes(a) < PathString(a) < EnvpStrings(a) <= ArgvStrings(a) <= a.top && |a.argv| < 2048
      requires argvPtrs == Pointers(a.argv, ArgvStrings(a)) && envpPtrs == Pointers(a.envp, EnvpStrings(a))
      modifies this
      ensures sp == ArgcAddress(a) && sp + 8 * |Words(a)| <= |bytes| == |old(bytes)|
      ensures bytes == Put(old(bytes), sp, Flat(Words(a)))
    {
      hide Put, Flat, Words, Auxv, Pointers, WordCount, RandomBytes, PathString, EnvpStrings, ArgvStrings;
      ghost var m := bytes;
      NothingPut(m, top);
      WordSizes(a);
      sp := PushAuxv(a, top, m);
      PointersSmall(a);
      sp := PushPointers(sp, envpPtrs, m, Auxv(a));
      sp := PushPointers(sp, argvPtrs, m, envpPtrs + [0] + Auxv(a));
      sp := PushWord(sp, |a.argv|, m, argvPtrs + [0] + (envpPtrs + [0] + Auxv(a)));
      WordsOf(a, argvPtrs, envpPtrs);
    }

    method ComputeSize(a: Args) returns (total: nat)
      ensures total == TotalSize(a)
    {
      total := 8;
      total := total + (|a.argv| + 1) * 8;
      total := total + (|a.envp| + 1) * 8;
      total := total + 192;
      total := AddStrings(total, a.argv);
      total := AddStrings(total, a.envp);
      total := total + |a.path| + 1;
      total := total + 16;
      total := (total + 15) / 16 * 16;
    }

    method AddStrings(n: nat, strs: seq<seq<Byte>>) returns (total: nat)
      ensures total == n + StringSpace(strs)
    {
      total := n;
      for i := 0 to |strs|
        invariant total + StringSpace(strs[i..]) == n + StringSpace(strs)
      {
        assert strs[i..][1..] == strs[i + 1..];
        total := total + |strs[i]| + 1;
      }
    }

    // ---------- Reading ----------

    /** Reads up to a NUL, or refuses a string that goes on too long. */
    method ReadUserString(ptr: nat) returns (r: Result<seq<Byte>, ErrorCode>)
      ensures r.Ok? ==> HoldsString(bytes, ptr, r.value)
      ensures forall s :: HoldsString(bytes, ptr, s) ==> r == Ok(s)
      ensures r.Err? ==> r.error == if ptr == 0 then EFAULT else E2BIG
    {
      if ptr == 0 {
        return Err(EFAULT);
      }
      var s: seq<Byte> := [];
      for i := 0 to MAX_STRLEN
        invariant |s| == i && forall k :: 0 <= k < i ==> s[k] != 0 && s[k] == ByteAt(bytes, ptr + k)
      {
        var byte := ByteAt(bytes, ptr + i);
        if byte == 0 {
          forall t | HoldsString(bytes, ptr, t)
            ensures t == s
          {
            SameString(bytes, ptr, s, t);
          }
          return Ok(s);
        }
        s := s + [byte];
      }
      TooLong(bytes, ptr, s);
      return Err(E2BIG);
    }

    /** Reads a NULL-terminated vector of strings. */
    method ParseVector(at: nat) returns (r: Result<seq<seq<Byte>>, ErrorCode>)
      ensures at == 0 ==> r == Ok([])
      ensures at != 0 && r.Ok? ==> HoldsVector(bytes, at, r.value)
      ensures forall strs :: HoldsVector(bytes, at, strs) ==> r == Ok(strs)
      ensures r.Err? ==> r.error == E2BIG
    {
      hide WordAt, HoldsString;
      if at == 0 {
        return Ok([]);
      }
      var strs: seq<seq<Byte>> := [];
      var total, i := 0, 0;
      while true
        invariant i == |strs| <= MAX_COUNT && total == StringSpace(strs) <= MAX_TOTAL_BYTES
        invariant forall k :: 0 <= k < i ==> HoldsString(bytes, WordAt(bytes, at + 8 * k), strs[k])
        invariant forall t :: HoldsVector(bytes, at, t) ==> strs <= t
        decreases MAX_COUNT - i
      {
        if i >= MAX_COUNT {
          return Err(E2BIG);
        }
        var ptr := WordAt(bytes, at + 8 * i);
        if ptr == 0 {
          EndsHere(bytes, at, strs);
          return Ok(strs);
        }
        var s := ReadUserString(ptr);
        NextString(bytes, at, strs, ptr, s);
        if s.Err? {
          return Err(s.error);
        }
        SpaceSnoc(strs, s.value);
        total := total + |s.value| + 1;
        if total > MAX_TOTAL_BYTES {
          SpaceGrows(bytes, at, strs + [s.value]);
          return Err(E2BIG);
        }
        strs := strs + [s.value];
        i := i + 1;
      }
    }

    /** Arguments and environment survive the trip through a new program's stack. */
    method SetupThenParse(a: Args) returns (argc: nat, argv: seq<seq<Byte>>, envp: seq<seq<Byte>>)
      requires Proper(a) && Fits(a) && a.top <= |bytes| && Readable(a.argv) && Readable(a.envp)
      modifies this
      ensures argc == |a.argv| && argv == a.argv && envp == a.envp
    {
      hide HoldsVector, Readable, Image, TotalSize, ArgcAddress, AuxvTells, AuxvAddress, WordAt;
      var sp := SetupUserStack(a);
      ImageHoldsVectors(old(bytes), a);
      argc := WordAt(bytes, ArgcAddress(a));
      var v := ParseVector(ArgcAddress(a) + 8);
      var e := ParseVector(ArgcAddress(a) + 16 + 8 * argc);
      argv, envp := v.value, e.value;
    }
  }
}
