/** The CPU memory routines: eight-byte words first, then single bytes.  Memory is one byte array;
    pointers are offsets into it, so source and destination may overlap in any way. */
module Memory {
  import opened Powers

  type Byte = x: int | 0 <= x < 256

  // ----- copying

  /** Memory with one span replaced. */
  function Replaced(m: seq<Byte>, dst: nat, span: seq<Byte>): (r: seq<Byte>)
    requires dst + |span| <= |m|
    ensures |r| == |m|
  {
    m[..dst] + span + m[dst + |span|..]
  }

  /** The simultaneous copy: all bytes are read before any is written. */
  function Moved(m: seq<Byte>, dst: nat, src: nat, n: nat): (r: seq<Byte>)
    requires dst + n <= |m| && src + n <= |m|
    ensures |r| == |m|
  {
    Replaced(m, dst, m[src..src + n])
  }

  lemma MovedAt(m: seq<Byte>, dst: nat, src: nat, n: nat, k: nat)
    requires dst + n <= |m| && src + n <= |m| && k < |m|
    ensures Moved(m, dst, src, n)[k] == if dst <= k < dst + n then m[src + (k - dst)] else m[k]
  {
  }

  /** The bytes one step moves together: a word while eight or more are left, else one byte. */
  function Unit(n: nat): nat { if n >= 8 then 8 else 1 }

  /** The copy unit by unit from the low end, each unit read and then written. */
  function Copied(m: seq<Byte>, dst: nat, src: nat, n: nat): (r: seq<Byte>)
    requires dst + n <= |m| && src + n <= |m|
    ensures |r| == |m|
    decreases n
  {
    if n == 0 then m
    else Copied(Moved(m, dst, src, Unit(n)), dst + Unit(n), src + Unit(n), n - Unit(n))
  }

  /** Writes the bytes of one unit that has been read before. */
  method WriteUnit(mem: array<Byte>, dst: nat, bytes: seq<Byte>)
    requires dst + |bytes| <= mem.Length
    modifies mem
    ensures mem[..] == Replaced(old(mem[..]), dst, bytes)
  {
    forall i | 0 <= i < |bytes| { mem[dst + i] := bytes[i]; }
  }

  /** `rep movsq` over the words, then `rep movsb` over the tail. */
  method Copy(mem: array<Byte>, destination: nat, source: nat, bytes: nat)
    requires destination + bytes <= mem.Length && source + bytes <= mem.Length
    modifies mem
    ensures mem[..] == Copied(old(mem[..]), destination, source, bytes)
  {
    hide Replaced, Copied;
    var words, tail := bytes / 8, bytes % 8;
    var dst, src := destination, source;
    ghost var goal := Copied(mem[..], dst, src, bytes);
    while words != 0
      invariant 0 <= words && dst + 8 * words + tail == destination + bytes && src - dst == source - destination
      invariant Copied(mem[..], dst, src, 8 * words + tail) == goal
    {
      var word := mem[src..src + 8];
      CopiedStep(mem[..], dst, src, 8 * words + tail, word);
      WriteUnit(mem, dst, word);
      words, dst, src := words - 1, dst + 8, src + 8;
    }
    while tail != 0
      invariant 0 <= tail < 8 && dst + tail == destination + bytes && src - dst == source - destination
      invariant Copied(mem[..], dst, src, tail) == goal
    {
      var byte := [mem[src]];
      CopiedStep(mem[..], dst, src, tail, byte);
      WriteUnit(mem, dst, byte);
      tail, dst, src := tail - 1, dst + 1, src + 1;
    }
    assert mem[..] == goal by { CopiedNothing(mem[..], dst, src); }
  }

  lemma CopiedStep(m: seq<Byte>, dst: nat, src: nat, n: nat, unit: seq<Byte>)
    requires n > 0 && dst + n <= |m| && src + n <= |m| && unit == m[src..src + Unit(n)]
    ensures Copied(m, dst, src, n) == Copied(Replaced(m, dst, unit), dst + Unit(n), src + Unit(n), n - Unit(n))
  {
  }

  lemma CopiedUnit(m: seq<Byte>, dst: nat, src: nat, n: nat)
    requires n > 0 && dst + n <= |m| && src + n <= |m|
    ensures Copied(m, dst, src, n) ==
            Copied(Moved(m, dst, src, Unit(n)), dst + Unit(n), src + Unit(n), n - Unit(n))
  {
    hide Moved;
  }

  lemma CopiedNothing(m: seq<Byte>, dst: nat, src: nat)
    requires dst <= |m| && src <= |m|
    ensures Copied(m, dst, src, 0) == m == Moved(m, dst, src, 0)
  {
  }

  /** Where unit-wise copying from the low end is safe: the destination is not above the source, or
      past its end, or everything fits one word. */
  predicate ForwardSafe(dst: nat, src: nat, n: nat) { dst <= src || dst - src >= n || n == 8 }

  /** A simultaneous copy in two parts, where the first does not touch what the second reads. */
  lemma MovedInTwo(m: seq<Byte>, dst: nat, src: nat, u: nat, n: nat)
    requires u <= n && dst + n <= |m| && src + n <= |m|
    requires dst <= src || dst - src >= n || u == n
    ensures Moved(Moved(m, dst, src, u), dst + u, src + u, n - u) == Moved(m, dst, src, n)
  {
    hide Moved;
    var m1 := Moved(m, dst, src, u);
    var m2, all := Moved(m1, dst + u, src + u, n - u), Moved(m, dst, src, n);
    forall k | 0 <= k < |m| ensures m2[k] == all[k] {
      MovedAt(m, dst, src, n, k);
      MovedAt(m1, dst + u, src + u, n - u, k);
      MovedAt(m, dst, src, u, if dst + u <= k < dst + n then src + (k - dst) else k);
    }
  }

  lemma {:induction false} CopiedIsMoved(m: seq<Byte>, dst: nat, src: nat, n: nat)
    requires dst + n <= |m| && src + n <= |m| && ForwardSafe(dst, src, n)
    ensures Copied(m, dst, src, n) == Moved(m, dst, src, n)
    decreases n
  {
    hide Moved, Copied;
    if n == 0 {
      CopiedNothing(m, dst, src);
    } else {
      var u := Unit(n);
      CopiedUnit(m, dst, src, n);
      MovedInTwo(m, dst, src, u, n);
      CopiedIsMoved(Moved(m, dst, src, u), dst + u, src + u, n - u);
    }
  }

  lemma {:induction false} CopiedFrame(m: seq<Byte>, dst: nat, src: nat, n: nat, k: nat)
    requires dst + n <= |m| && src + n <= |m| && k < dst
    ensures Copied(m, dst, src, n)[k] == m[k]
    decreases n
  {
    if n > 0 {
      hide Moved;
      var u := Unit(n);
      MovedAt(m, dst, src, u, k);
      CopiedFrame(Moved(m, dst, src, u), dst + u, src + u, n - u, k);
    }
  }

  /** A source byte below the destination is still intact when its turn comes. */
  lemma {:induction false} CopiedAt(m: seq<Byte>, dst: nat, src: nat, n: nat, j: nat)
    requires dst + n <= |m| && src + n <= |m| && j < n && src + j < dst
    ensures Copied(m, dst, src, n)[dst + j] == m[src + j]
    decreases n
  {
    hide Moved;
    var u := Unit(n);
    var m1 := Moved(m, dst, src, u);
    if j >= u {
      MovedAt(m, dst, src, u, src + j);
      CopiedAt(m1, dst + u, src + u, n - u, j - u);
    } else {
      MovedAt(m, dst, src, u, dst + j);
      CopiedFrame(m1, dst + u, src + u, n - u, dst + j);
    }
  }

  /** Memory that is zero but for one byte. */
  function OneAt(len: nat, p: nat): (m: seq<Byte>)
    ensures |m| == len && forall k :: 0 <= k < len ==> m[k] == if k == p then 1 else 0
  {
    seq(len, k => if k == p then 1 else 0)
  }

  /** Everywhere else some memory contents are copied wrongly: the first unit written spoils a
      source byte that is still to be read. */
  lemma UnsafeCopyFails(len: nat, dst: nat, src: nat, n: nat)
    requires dst + n <= len && src + n <= len && !ForwardSafe(dst, src, n)
    ensures exists m: seq<Byte> :: |m| == len && Copied(m, dst, src, n) != Moved(m, dst, src, n)
  {
    hide Moved, OneAt;
    var d, u := dst - src, Unit(n);
    var k := if d > u then d else u;
    var m := OneAt(len, src + k - d);
    var m1 := Moved(m, dst, src, u);
    MovedAt(m, dst, src, u, src + k);
    assert m1[src + k] == m[src + k - d] == 1;
    MovedAt(m, dst, src, n, dst + k);
    CopiedAt(m1, dst + u, src + u, n - u, k - u);
    assert Copied(m, dst, src, n) == Copied(m1, dst + u, src + u, n - u);
    hide Copied;
    assert Copied(m, dst, src, n)[dst + k] == 1;
    assert Moved(m, dst, src, n)[dst + k] == m[src + k] == 0;
  }

  /** Unit-wise copying equals the simultaneous copy for all contents exactly where it is safe. */
  lemma CopyExactly(len: nat, dst: nat, src: nat, n: nat)
    requires dst + n <= len && src + n <= len
    ensures ForwardSafe(dst, src, n) <==>
            forall m: seq<Byte> :: |m| == len ==> Copied(m, dst, src, n) == Moved(m, dst, src, n)
  {
    if ForwardSafe(dst, src, n) {
      forall m: seq<Byte> | |m| == len ensures Copied(m, dst, src, n) == Moved(m, dst, src, n) {
        CopiedIsMoved(m, dst, src, n);
      }
    } else {
      UnsafeCopyFails(len, dst, src, n);
    }
  }

  /** Equals the simultaneous copy for every distance and direction of overlap. */
  method Memmove(mem: array<Byte>, dst: nat, src: nat, bytes: nat)
    requires dst + bytes <= mem.Length && src + bytes <= mem.Length
    modifies mem
    ensures mem[..] == Moved(old(mem[..]), dst, src, bytes)
  {
    hide Copied, Moved;
    ghost var before := mem[..];
    if dst == src || bytes == 0 {
      MovedNowhere(before, dst, src, bytes);
      return;
    }
    if dst < src || dst - src >= bytes {
      Copy(mem, dst, src, bytes);
      CopiedIsMoved(before, dst, src, bytes);
      return;
    }
    var n := bytes;
    while n != 0
      invariant 0 <= n <= bytes
      invariant forall k :: dst + n <= k < dst + bytes ==> mem[k] == before[src + (k - dst)]
      invariant forall k :: 0 <= k < mem.Length && !(dst + n <= k < dst + bytes) ==> mem[k] == before[k]
    {
      n := n - 1;
      mem[dst + n] := mem[src + n];
    }
    IsMoved(before, mem[..], dst, src, bytes);
  }

  lemma MovedNowhere(m: seq<Byte>, dst: nat, src: nat, n: nat)
    requires dst + n <= |m| && src + n <= |m| && (dst == src || n == 0)
    ensures Moved(m, dst, src, n) == m
  {
  }

  /** The simultaneous copy, told by its bytes. */
  lemma IsMoved(m: seq<Byte>, r: seq<Byte>, dst: nat, src: nat, n: nat)
    requires |r| == |m| && dst + n <= |m| && src + n <= |m|
    requires forall k :: dst <= k < dst + n ==> r[k] == m[src + (k - dst)]
    requires forall k :: 0 <= k < |m| && !(dst <= k < dst + n) ==> r[k] == m[k]
    ensures r == Moved(m, dst, src, n)
  {
  }

  // ----- setting

  function Filled(value: Byte, n: nat): (s: seq<Byte>)
    ensures |s| == n && forall k :: 0 <= k < n ==> s[k] == value
  {
    seq(n, _ => value)
  }

  /** The n low bytes of a word, little-endian. */
  function WordBytes(word: nat, n: nat): (s: seq<Byte>)
    ensures |s| == n
  {
    if n == 0 then [] else [word % 0x100] + WordBytes(word / 0x100, n - 1)
  }

  /** The number 0x01...01 with n bytes. */
  function Ones(n: nat): nat { if n == 0 then 0 else 1 + 0x100 * Ones(n - 1) }

  lemma PatternValue(value: Byte, ones: nat)
    ensures value * (1 + 0x100 * ones) == value + 0x100 * (value * ones) && value * ones >= 0
  {
  }

  lemma {:induction false} PatternBytes(value: Byte, n: nat)
    ensures WordBytes(value * Ones(n), n) == Filled(value, n)
  {
    if n > 0 {
      var rest := value * Ones(n - 1);
      PatternValue(value, Ones(n - 1));
      LowHigh(value, rest, 0x100);
      PatternBytes(value, n - 1);
    }
  }

  lemma ReplacedBytes(m: seq<Byte>, r: seq<Byte>, dst: nat, span: seq<Byte>)
    requires dst + |span| <= |m| && r == Replaced(m, dst, span)
    ensures forall k :: dst <= k < dst + |span| ==> r[k] == span[k - dst]
    ensures forall k :: 0 <= k < |m| && !(dst <= k < dst + |span|) ==> r[k] == m[k]
  {
  }

  /** Replacement, told by its bytes. */
  lemma IsReplaced(m: seq<Byte>, r: seq<Byte>, dst: nat, span: seq<Byte>)
    requires |r| == |m| && dst + |span| <= |m|
    requires forall k :: dst <= k < dst + |span| ==> r[k] == span[k - dst]
    requires forall k :: 0 <= k < |m| && !(dst <= k < dst + |span|) ==> r[k] == m[k]
    ensures r == Replaced(m, dst, span)
  {
  }

  /** `rep stosq` of the replicated byte, then `rep stosb` of the tail. */
  method Set(mem: array<Byte>, destination: nat, value: Byte, bytes: nat)
    requires destination + bytes <= mem.Length
    modifies mem
    ensures mem[..] == Replaced(old(mem[..]), destination, Filled(value, bytes))
  {
    var words, tail, dst := bytes / 8, bytes % 8, destination;
    var pattern := value * 0x0101_0101_0101_0101;
    assert Ones(8) == 0x0101_0101_0101_0101 by { assert Ones(4) == 0x0101_0101; }
    PatternBytes(value, 8);
    hide Ones, WordBytes, Replaced;
    while words != 0
      invariant 0 <= words && dst + 8 * words + tail == destination + bytes && destination <= dst
      invariant forall k :: destination <= k < dst ==> mem[k] == value
      invariant forall k :: 0 <= k < mem.Length && !(destination <= k < dst) ==> mem[k] == old(mem[k])
    {
      ghost var now := mem[..];
      WriteUnit(mem, dst, WordBytes(pattern, 8));
      ReplacedBytes(now, mem[..], dst, WordBytes(pattern, 8));
      words, dst := words - 1, dst + 8;
    }
    while tail != 0
      invariant 0 <= tail && dst + tail == destination + bytes && destination <= dst
      invariant forall k :: destination <= k < dst ==> mem[k] == value
      invariant forall k :: 0 <= k < mem.Length && !(destination <= k < dst) ==> mem[k] == old(mem[k])
    {
      ghost var now := mem[..];
      WriteUnit(mem, dst, [value]);
      ReplacedBytes(now, mem[..], dst, [value]);
      tail, dst := tail - 1, dst + 1;
    }
    IsReplaced(old(mem[..]), mem[..], destination, Filled(value, bytes));
  }

  // ----- strings

  /** The length of the string at the start of the readable bytes. */
  function Length(s: seq<Byte>): (n: nat)
    ensures n <= |s| && (forall k :: 0 <= k < n ==> s[k] != 0) && (n < |s| ==> s[n] == 0)
  {
    if s == [] || s[0] == 0 then 0 else 1 + Length(s[1..])
  }

  /** The string cut to n bytes, filled up with zeros. */
  function Cut(source: seq<Byte>, n: nat): (s: seq<Byte>)
    ensures |s| == n
  {
    var len := Length(source);
    if len < n then source[..len] + Filled(0, n - len) else source[..n]
  }

  /** The destination starts behind the source, but not behind all bytes that will be read of it: the
      copy then reads what it wrote and meets no terminator. */
  predicate Trails(dst: nat, src: nat, len: nat, n: nat) { src < dst && dst - src <= len && dst - src < n }

  /** The place of k in a row of periods of length d. */
  function Phase(k: nat, d: nat): (p: nat)
    requires d > 0
    ensures p < d
  {
    k % d
  }

  lemma PhaseStep(k: nat, d: nat)
    requires d > 0
    ensures Phase(k, d) == if k < d then k else Phase(k - d, d)
  {
    if k < d {
      DivUnique(k, d, 0, k);
    } else {
      Division(k - d, d);
      DivUnique(k, d, (k - d) / d + 1, (k - d) % d);
    }
  }

  function Repeated(s: seq<Byte>, n: nat): (r: seq<Byte>)
    requires s != []
    ensures |r| == n && forall k :: 0 <= k < n ==> r[k] == s[Phase(k, |s|)]
  {
    seq(n, k requires k >= 0 => s[Phase(k, |s|)])
  }

  /** What the string copy writes: the cut string, or over and over what stands before the destination. */
  function Streamed(m: seq<Byte>, dst: nat, src: nat, n: nat): (s: seq<Byte>)
    requires src <= |m| && dst + n <= |m|
    ensures |s| == n
  {
    if Trails(dst, src, Length(m[src..]), n) then Repeated(m[src..dst], n) else Cut(m[src..], n)
  }

  /** A string is readable up to its terminator or for the n bytes asked for. */
  ghost predicate Readable(m: seq<Byte>, src: nat, n: nat) {
    src <= |m| && (src + Length(m[src..]) < |m| || src + n <= |m|)
  }

  /** The string copy after i bytes: they are written, the others are untouched, no terminator was met. */
  ghost predicate Underway(m: seq<Byte>, now: seq<Byte>, dst: nat, src: nat, n: nat, i: nat)
    requires Readable(m, src, n) && dst + n <= |m|
  {
    && |now| == |m| && i <= n
    && (Trails(dst, src, Length(m[src..]), n) || i <= Length(m[src..]))
    && (forall k :: dst <= k < dst + i ==> now[k] == Streamed(m, dst, src, n)[k - dst])
    && (forall k :: 0 <= k < |m| && !(dst <= k < dst + i) ==> now[k] == m[k])
  }

  lemma UnderwayStarts(m: seq<Byte>, dst: nat, src: nat, n: nat)
    requires Readable(m, src, n) && dst + n <= |m|
    ensures Underway(m, m, dst, src, n, 0)
  {
    hide Streamed, Length;
  }

  lemma TrailingReads(m: seq<Byte>, now: seq<Byte>, dst: nat, src: nat, n: nat, i: nat)
    requires Readable(m, src, n) && dst + n <= |m| && i < n && Underway(m, now, dst, src, n, i)
    requires Trails(dst, src, Length(m[src..]), n)
    ensures now[src + i] == Streamed(m, dst, src, n)[i] != 0
  {
    hide Phase, Length, Streamed;
    var s, d := m[src..], dst - src;
    PhaseStep(i, d);
    StreamedTrails(m, dst, src, n);
    assert s[Phase(i, d)] == m[src + Phase(i, d)] != 0;
    if i >= d { assert now[src + i] == Streamed(m, dst, src, n)[i - d]; }
  }

  lemma StreamedCut(m: seq<Byte>, dst: nat, src: nat, n: nat, i: nat)
    requires src <= |m| && dst + n <= |m| && !Trails(dst, src, Length(m[src..]), n)
    requires i < n && i < Length(m[src..])
    ensures Streamed(m, dst, src, n)[i] == m[src..][i]
  {
    hide Length;
  }

  /** The byte the loop reads after i bytes have been written. */
  lemma UnderwayReads(m: seq<Byte>, now: seq<Byte>, dst: nat, src: nat, n: nat, i: nat)
    requires Readable(m, src, n) && dst + n <= |m| && i < n && Underway(m, now, dst, src, n, i)
    ensures src + i < |m|
    ensures now[src + i] != 0 <==> Trails(dst, src, Length(m[src..]), n) || i < Length(m[src..])
    ensures now[src + i] != 0 ==> now[src + i] == Streamed(m, dst, src, n)[i]
  {
    hide Phase, Length, Streamed;
    var s := m[src..];
    if Trails(dst, src, Length(s), n) {
      TrailingReads(m, now, dst, src, n, i);
    } else {
      assert s[i] == m[src + i];
      if i < Length(s) { StreamedCut(m, dst, src, n, i); }
    }
  }

  lemma UnderwayStep(m: seq<Byte>, now: seq<Byte>, next: seq<Byte>, dst: nat, src: nat, n: nat, i: nat)
    requires Readable(m, src, n) && dst + n <= |m| && i < n && Underway(m, now, dst, src, n, i)
    requires src + i < |now| && now[src + i] != 0 && next == now[dst + i := now[src + i]]
    ensures Underway(m, next, dst, src, n, i + 1)
    ensures i + 1 < n ==> src + i + 1 < |m|
  {
    hide Streamed, Length;
    UnderwayReads(m, now, dst, src, n, i);
    if i + 1 < n { UnderwayReads(m, next, dst, src, n, i + 1); }
  }

  /** At the end, zeros complete what is missing. */
  lemma UnderwayEnds(m: seq<Byte>, now: seq<Byte>, end: seq<Byte>, dst: nat, src: nat, n: nat, i: nat)
    requires Readable(m, src, n) && dst + n <= |m| == |now| && i <= n && Underway(m, now, dst, src, n, i)
    requires i < n ==> src + i < |now| && now[src + i] == 0 && end == Replaced(now, dst + i, Filled(0, n - i))
    requires i == n ==> end == now
    ensures end == Replaced(m, dst, Streamed(m, dst, src, n))
  {
    hide Streamed, Length, Replaced, Filled;
    var goal := Streamed(m, dst, src, n);
    IsReplaced(m, now, dst, goal[..i]);
    if i < n {
      UnderwayReads(m, now, dst, src, n, i);
      StreamedEnd(m, dst, src, n);
      ReplacedTwice(m, dst, goal[..i], Filled(0, n - i));
    } else {
      assert goal == goal[..i];
    }
  }

  lemma StreamedEnd(m: seq<Byte>, dst: nat, src: nat, n: nat)
    requires src <= |m| && dst + n <= |m| && Length(m[src..]) < n && !Trails(dst, src, Length(m[src..]), n)
    ensures var s, len := Streamed(m, dst, src, n), Length(m[src..]); s == s[..len] + Filled(0, n - len)
  {
    hide Length;
  }

  /** One turn of that loop. */
  method CopyByte(mem: array<Byte>, ghost m: seq<Byte>, destination: nat, source: nat, bytes: nat, i: nat)
    requires Readable(m, source, bytes) && destination + bytes <= |m| == mem.Length && i < bytes
    requires Underway(m, mem[..], destination, source, bytes, i)
    requires source + i < mem.Length && mem[source + i] != 0
    modifies mem
    ensures Underway(m, mem[..], destination, source, bytes, i + 1)
    ensures i + 1 < bytes ==> source + i + 1 < mem.Length
  {
    hide *;
    ghost var now := mem[..];
    mem[destination + i] := mem[source + i];
    UnderwayStep(m, now, mem[..], destination, source, bytes, i);
  }

  /** The loop of the string copy, up to a terminator or the limit. */
  method CopyString(mem: array<Byte>, destination: nat, source: nat, bytes: nat) returns (i: nat)
    requires destination + bytes <= mem.Length && Readable(mem[..], source, bytes)
    modifies mem
    ensures i <= bytes && (i < bytes ==> source + i < mem.Length && mem[source + i] == 0)
    ensures Underway(old(mem[..]), mem[..], destination, source, bytes, i)
  {
    ghost var m := mem[..];
    i := 0;
    hide *;
    UnderwayStarts(m, destination, source, bytes);
    if bytes > 0 { UnderwayReads(m, m, destination, source, bytes, 0); }
    while i < bytes && mem[source + i] != 0
      invariant 0 <= i <= bytes && Underway(m, mem[..], destination, source, bytes, i)
      invariant i < bytes ==> source + i < mem.Length
    {
      CopyByte(mem, m, destination, source, bytes, i);
      i := i + 1;
    }
  }

  /** Copies at most `bytes` bytes of a string, and fills up with zeros. */
  method Strncpy(mem: array<Byte>, destination: nat, source: nat, bytes: nat)
    requires destination + bytes <= mem.Length && Readable(mem[..], source, bytes)
    modifies mem
    ensures mem[..] == Replaced(old(mem[..]), destination, Streamed(old(mem[..]), destination, source, bytes))
  {
    hide *;
    ghost var m := mem[..];
    var i := CopyString(mem, destination, source, bytes);
    ghost var now := mem[..];
    if i < bytes { Set(mem, destination + i, 0, bytes - i); }
    UnderwayEnds(m, now, mem[..], destination, source, bytes, i);
  }

  /** The first n bytes repeat themselves at distance d, with no terminator among them. */
  ghost predicate Periodic(s: seq<Byte>, d: nat, n: nat) {
    n <= Length(s) && forall k :: d <= k < n ==> s[k] == s[k - d]
  }

  lemma {:induction false} PeriodicRepeats(s: seq<Byte>, d: nat, n: nat, k: nat)
    requires 0 < d <= |s| && k < n && Periodic(s, d, n)
    ensures s[k] == s[Phase(k, d)]
  {
    hide Phase, Length;
    PhaseStep(k, d);
    if k >= d { PeriodicRepeats(s, d, n, k - d); }
  }

  /** The copy yields the cut string exactly when it does not trail, or the string repeats itself at that
      distance throughout. */
  lemma StringCopyExactly(m: seq<Byte>, dst: nat, src: nat, n: nat)
    requires src <= |m| && dst + n <= |m|
    ensures Streamed(m, dst, src, n) == Cut(m[src..], n) <==>
            (Trails(dst, src, Length(m[src..]), n) ==> Periodic(m[src..], dst - src, n))
  {
    hide Length, Phase, Streamed;
    var s, d := m[src..], dst - src;
    if Trails(dst, src, Length(s), n) {
      StreamedTrails(m, dst, src, n);
      TrailingExactly(s, Streamed(m, dst, src, n), d, n);
    } else {
      StreamedClear(m, dst, src, n);
    }
  }

  lemma StreamedClear(m: seq<Byte>, dst: nat, src: nat, n: nat)
    requires src <= |m| && dst + n <= |m| && !Trails(dst, src, Length(m[src..]), n)
    ensures Streamed(m, dst, src, n) == Cut(m[src..], n)
  {
    hide Cut, Length;
  }

  lemma StreamedTrails(m: seq<Byte>, dst: nat, src: nat, n: nat)
    requires src <= |m| && dst + n <= |m| && Trails(dst, src, Length(m[src..]), n)
    ensures forall k :: 0 <= k < n ==> Streamed(m, dst, src, n)[k] == m[src..][Phase(k, dst - src)]
  {
    hide Length, Phase, Cut;
    assert forall k :: 0 <= k < dst - src ==> m[src..dst][k] == m[src..][k];
  }

  lemma TrailingExactly(s: seq<Byte>, r: seq<Byte>, d: nat, n: nat)
    requires 0 < d <= Length(s) && d < n == |r| && forall k :: 0 <= k < n ==> r[k] == s[Phase(k, d)]
    ensures r == Cut(s, n) <==> Periodic(s, d, n)
  {
    hide Length, Phase, Cut;
    CutBytes(s, n);
    if n > Length(s) {
      assert r[Length(s)] != 0;
    } else if Periodic(s, d, n) {
      forall k | 0 <= k < n ensures r[k] == s[k] { PeriodicRepeats(s, d, n, k); }
    } else {
      var k :| d <= k < n && s[k] != s[k - d];
      PhaseStep(k, d);
      assert r[k] == r[k - d];
    }
  }

  lemma CutBytes(s: seq<Byte>, n: nat)
    ensures forall k :: 0 <= k < n ==> Cut(s, n)[k] == if k < Length(s) then s[k] else 0
  {
    hide Length;
  }

  lemma ReplacedTwice(m: seq<Byte>, dst: nat, a: seq<Byte>, b: seq<Byte>)
    requires dst + |a| + |b| <= |m|
    ensures Replaced(Replaced(m, dst, a), dst + |a|, b) == Replaced(m, dst, a + b)
  {
  }

  /** Zero for equal memory, else the difference of the first bytes that differ. */
  method Compare(a: seq<Byte>, b: seq<Byte>, bytes: nat) returns (r: int)
    requires bytes <= |a| && bytes <= |b|
    ensures r == 0 <==> a[..bytes] == b[..bytes]
    ensures r != 0 ==> exists k :: 0 <= k < bytes && a[..k] == b[..k] && r == a[k] as int - b[k] as int
  {
    for i := 0 to bytes
      invariant a[..i] == b[..i]
    {
      if a[i] != b[i] {
        assert a[..bytes][i] != b[..bytes][i];
        return a[i] as int - b[i] as int;
      }
    }
    return 0;
  }

  /** Compares terminated strings, reading neither past its terminator. */
  method StringCompare(a: seq<Byte>, b: seq<Byte>) returns (r: int)
    requires Length(a) < |a| && Length(b) < |b|
    ensures r == 0 <==> a[..Length(a)] == b[..Length(b)]
    ensures r != 0 ==>
              exists k :: 0 <= k <= Length(a) && k <= Length(b) && a[..k] == b[..k] && r == a[k] as int - b[k] as int
  {
    var i := 0;
    while a[i] != 0 && a[i] == b[i]
      invariant 0 <= i <= Length(a) && i <= Length(b) && a[..i] == b[..i]
      decreases |a| - i
    {
      i := i + 1;
    }
    r := a[i] as int - b[i] as int;
    ghost var s, t := a[..Length(a)], b[..Length(b)];
    assert i < Length(a) ==> s[i] == a[i];
    assert i < Length(b) ==> t[i] == b[i];
    assert r == 0 ==> s == a[..i] && t == b[..i];
  }
}
