/**
 The FAT32 volume of Mini64 (mini64/kernel.c), one sector per cluster: the allocation table as a
 sequence of 28-bit entries, cluster chains, the one-sector root directory, and the volume
 invariant with every live file's chain.
 */
module FatSpec {
  import opened Bytes

  const SECTOR: nat := 512
  const SECTORS: nat := 129024              // HOME_SECTORS
  const SLOTS: nat := 16
  const END: nat := 0x0FFFFFFF
  const EOC: nat := 0x0FFFFFF8              // entries from here on end a chain
  const DELETED: byte := 0xE5

  function Blank(): (b: seq<byte>)
    ensures |b| == SECTOR && forall i :: 0 <= i < SECTOR ==> b[i] == 0
  {
    seq(SECTOR, _ => 0)
  }

  // -------------------------------------------------------------------- chains

  /** The allocation table and the contents of every cluster. */
  datatype Vol = Vol(fat: seq<nat>, data: seq<seq<byte>>)

  predicate Distinct(cs: seq<nat>) { forall i, j :: 0 <= i < j < |cs| ==> cs[i] != cs[j] }

  predicate InRange(fat: seq<nat>, cs: seq<nat>) { forall i :: 0 <= i < |cs| ==> 2 <= cs[i] < |fat| }

  /** Each cluster's entry names the next; the last one's ends the chain. */
  predicate Linked(fat: seq<nat>, cs: seq<nat>)
    requires InRange(fat, cs)
  {
    && (forall i :: 0 <= i < |cs| - 1 ==> Link(fat, cs, i))
    && (cs != [] ==> fat[cs[|cs| - 1]] >= 0x0fff_fff8)
  }

  predicate Link(fat: seq<nat>, cs: seq<nat>, i: nat)
    requires InRange(fat, cs) && i < |cs| - 1
  {
    fat[cs[i]] == cs[i + 1]
  }

  /** `cs` is a finite, acyclic chain of the table. */
  predicate Chain(fat: seq<nat>, cs: seq<nat>) {
    cs != [] && InRange(fat, cs) && Distinct(cs) && Linked(fat, cs)
  }

  /** A chain depends on the entries of its own clusters only. */
  lemma ChainSame(fat: seq<nat>, fat': seq<nat>, cs: seq<nat>)
    requires Chain(fat, cs) && |fat'| == |fat| && forall i :: 0 <= i < |cs| ==> fat'[cs[i]] == fat[cs[i]]
    ensures Chain(fat', cs)
  {
    forall i | 0 <= i < |cs| - 1 ensures Link(fat', cs, i) { assert Link(fat, cs, i); }
  }

  /** Clusters of a chain are used. */
  lemma ChainUsed(fat: seq<nat>, cs: seq<nat>, i: nat)
    requires Chain(fat, cs) && i < |cs|
    ensures fat[cs[i]] != 0
  {
    if i < |cs| - 1 { assert Link(fat, cs, i) && cs[i + 1] >= 2; }
  }

  /** There is no room for more distinct clusters than the table has entries. */
  lemma {:induction false} ChainLength(cs: seq<nat>, n: nat)
    requires Distinct(cs) && forall i :: 0 <= i < |cs| ==> cs[i] < n
    ensures |cs| <= n
    decreases n
  {
    assert cs != [] ==> cs[0] < n;
    if n > 0 {
      if k :| 0 <= k < |cs| && cs[k] == n - 1 {
        ChainLength(cs[..k] + cs[k + 1..], n - 1);
      } else {
        ChainLength(cs, n - 1);
      }
    }
  }

  // ------------------------------------------------------------------ counting

  function Zeros(s: seq<nat>): nat {
    if s == [] then 0 else (if s[0] == 0 then 1 else 0) + Zeros(s[1..])
  }

  lemma {:induction false} ZerosUpdate(s: seq<nat>, i: nat, v: nat)
    requires i < |s|
    ensures Zeros(s[i := v]) + (if s[i] == 0 then 1 else 0) == Zeros(s) + if v == 0 then 1 else 0
  {
    if i == 0 {
      assert s[i := v][1..] == s[1..];
    } else {
      ZerosUpdate(s[1..], i - 1, v);
      assert s[i := v][1..] == s[1..][i - 1 := v];
    }
  }

  lemma {:induction false} ZerosNone(s: seq<nat>)
    ensures Zeros(s) == 0 <==> forall i :: 0 <= i < |s| ==> s[i] != 0
  {
    if s != [] {
      ZerosNone(s[1..]);
      assert forall i :: 0 < i < |s| ==> s[i] == s[1..][i - 1];
    }
  }

  /** Free clusters at or above `from`; cluster numbers start at 2. */
  function Free(fat: seq<nat>, from: nat): nat
    requires from <= |fat|
  {
    Zeros(fat[from..])
  }

  lemma FreeUpdate(fat: seq<nat>, c: nat, v: nat, from: nat)
    requires from <= c < |fat|
    ensures Free(fat[c := v], from) + (if fat[c] == 0 then 1 else 0) == Free(fat, from) + if v == 0 then 1 else 0
  {
    assert fat[c := v][from..] == fat[from..][c - from := v];
    ZerosUpdate(fat[from..], c - from, v);
  }

  lemma FreeNone(fat: seq<nat>, from: nat)
    requires from <= |fat|
    ensures Free(fat, from) == 0 <==> forall c :: from <= c < |fat| ==> fat[c] != 0
  {
    ZerosNone(fat[from..]);
    assert forall c :: from <= c < |fat| ==> fat[c] == fat[from..][c - from];
    assert forall i :: 0 <= i < |fat[from..]| ==> fat[from..][i] == fat[from + i];
  }

  // ---------------------------------------------------------- freeing a chain

  /** The table with the entries of `cs` zero. */
  function Freed(fat: seq<nat>, cs: seq<nat>): (r: seq<nat>)
    requires InRange(fat, cs)
    ensures |r| == |fat|
    decreases cs
  {
    if cs == [] then fat else Freed(fat[cs[0] := 0], cs[1..])
  }

  lemma {:induction false} FreedAt(fat: seq<nat>, cs: seq<nat>)
    requires InRange(fat, cs)
    ensures forall c :: 0 <= c < |fat| ==> Freed(fat, cs)[c] == if c in cs then 0 else fat[c]
    decreases cs
  {
    if cs != [] {
      FreedAt(fat[cs[0] := 0], cs[1..]);
      assert forall c :: c in cs <==> c == cs[0] || c in cs[1..];
    }
  }

  lemma {:induction false} FreedCount(fat: seq<nat>, cs: seq<nat>)
    requires InRange(fat, cs) && Distinct(cs) && 2 <= |fat| && forall i :: 0 <= i < |cs| ==> fat[cs[i]] != 0
    ensures Free(Freed(fat, cs), 2) == Free(fat, 2) + |cs|
    decreases cs
  {
    hide Zeros;
    if cs != [] {
      var rest := cs[1..];
      assert forall i :: 0 <= i < |rest| ==> rest[i] == cs[i + 1];
      FreeUpdate(fat, cs[0], 0, 2);
      FreedCount(fat[cs[0] := 0], rest);
    }
  }

  // ---------------------------------------------------------------- allocation

  /** First free cluster in `[from, limit)`, or `limit`. */
  function FirstFree(fat: seq<nat>, from: nat, limit: nat): (c: nat)
    requires from <= limit <= |fat|
    ensures from <= c <= limit && (c < limit ==> fat[c] == 0)
    ensures forall k :: from <= k < c ==> fat[k] != 0
    decreases limit - from
  {
    if from == limit || fat[from] == 0 then from else FirstFree(fat, from + 1, limit)
  }

  function Start(fat: seq<nat>, next: nat): nat {
    if next < 3 || next >= |fat| then 3 else next
  }

  /** allocate_cluster: the next free cluster from the hint on, then from 3 up to the hint; 0 when there is none. */
  function NextFit(fat: seq<nat>, next: nat): (c: nat)
    requires |fat| > 3
    ensures c == 0 || (3 <= c < |fat| && fat[c] == 0)
  {
    var start := Start(fat, next);
    var c := FirstFree(fat, start, |fat|);
    if c < |fat| then c
    else
      var d := FirstFree(fat, 3, start);
      if d < start then d else 0
  }

  /** Next fit: nothing free is passed over from the hint to the end, and then from cluster 3 on. */
  lemma NextFitIs(fat: seq<nat>, next: nat)
    requires |fat| > 3 && NextFit(fat, next) != 0
    ensures var c, hint := NextFit(fat, next), if 3 <= next < |fat| then next else 3;
            && 3 <= c < |fat| && fat[c] == 0
            && if c >= hint then forall k :: hint <= k < c ==> fat[k] != 0
               else forall k :: 3 <= k < c || hint <= k < |fat| ==> fat[k] != 0
  {
  }

  lemma NextFitFails(fat: seq<nat>, next: nat)
    requires |fat| > 3
    ensures NextFit(fat, next) == 0 <==> Free(fat, 3) == 0
  {
    hide Zeros, FirstFree;
    FreeNone(fat, 3);
  }

  // ----------------------------------------------------------- root directory

  predicate Live(root: seq<byte>, i: nat)
    requires |root| == SECTOR && i < SLOTS
  {
    root[i * 32] != 0 && root[i * 32] != DELETED
  }

  function NameAt(root: seq<byte>, i: nat): (n: seq<byte>)
    requires |root| == SECTOR && i < SLOTS
    ensures |n| == 11
  {
    root[i * 32..i * 32 + 11]
  }

  function First(root: seq<byte>, i: nat): nat
    requires |root| == SECTOR && i < SLOTS
  {
    U16(root, i * 32 + 26) + 0x1_0000 * U16(root, i * 32 + 20)
  }

  function Size(root: seq<byte>, i: nat): nat
    requires |root| == SECTOR && i < SLOTS
  {
    U32(root, i * 32 + 28)
  }

  function Record(root: seq<byte>, i: nat): (r: seq<byte>)
    requires |root| == SECTOR && i < SLOTS
    ensures |r| == 32
  {
    root[i * 32..i * 32 + 32]
  }

  /** find_entry: the first live slot with the name, or 16. */
  function Slot(root: seq<byte>, key: seq<byte>, from: nat): (i: nat)
    requires |root| == SECTOR && from <= SLOTS
    ensures from <= i <= SLOTS && (i < SLOTS ==> Live(root, i) && NameAt(root, i) == key)
    ensures forall j :: from <= j < i ==> !(Live(root, j) && NameAt(root, j) == key)
    decreases SLOTS - from
  {
    if from == SLOTS || (Live(root, from) && NameAt(root, from) == key) then from else Slot(root, key, from + 1)
  }

  /** The first slot that can take a new entry, or 16. */
  function Vacant(root: seq<byte>, from: nat): (i: nat)
    requires |root| == SECTOR && from <= SLOTS
    ensures from <= i <= SLOTS && (i < SLOTS ==> !Live(root, i)) && forall j :: from <= j < i ==> Live(root, j)
    decreases SLOTS - from
  {
    if from == SLOTS || !Live(root, from) then from else Vacant(root, from + 1)
  }

  /** A slot's fields depend on its 32 bytes. */
  lemma SlotSame(root: seq<byte>, root': seq<byte>, i: nat)
    requires |root| == |root'| == SECTOR && i < SLOTS && Record(root', i) == Record(root, i)
    ensures Live(root', i) == Live(root, i) && NameAt(root', i) == NameAt(root, i)
    ensures First(root', i) == First(root, i) && Size(root', i) == Size(root, i)
  {
    hide Le;
    var o := i * 32;
    SubSlice(root, o, 0, 1);
    SubSlice(root', o, 0, 1);
    assert root[o] == root[o..o + 1][0] && root'[o] == root'[o..o + 1][0];
    SubSlice(root, o, 0, 11);
    SubSlice(root', o, 0, 11);
    SubSlice(root, o, 20, 22);
    SubSlice(root', o, 20, 22);
    SubSlice(root, o, 26, 28);
    SubSlice(root', o, 26, 28);
    SubSlice(root, o, 28, 32);
    SubSlice(root', o, 28, 32);
  }

  lemma SubSlice(b: seq<byte>, o: nat, lo: nat, hi: nat)
    requires o + 32 <= |b| && lo <= hi <= 32
    ensures b[o..o + 32][lo..hi] == b[o + lo..o + hi]
  {
    var r := b[o..o + 32];
    forall k | 0 <= k < hi - lo ensures r[lo..hi][k] == b[o + lo..o + hi][k] { assert r[lo + k] == b[o + (lo + k)]; }
  }

  // -------------------------------------------------------------------- names

  const DOT: byte := 46
  const SLASH: byte := 47
  const SPACE: byte := 32

  function Upper(c: byte): byte { if 97 <= c <= 122 then c - 32 else c }

  /** Length of the name proper: up to eight bytes before a dot or a slash. */
  function BaseLength(name: seq<byte>, room: nat): (n: nat)
    ensures n <= |name| && n <= room && forall i :: 0 <= i < n ==> name[i] != DOT && name[i] != SLASH
    ensures n == room || n == |name| || name[n] == DOT || name[n] == SLASH
  {
    if name == [] || name[0] == DOT || name[0] == SLASH || room == 0 then 0 else 1 + BaseLength(name[1..], room - 1)
  }

  /** Position of the first dot, or the length. */
  function DotAt(name: seq<byte>): (n: nat)
    ensures n <= |name| && (n < |name| ==> name[n] == DOT) && forall i :: 0 <= i < n ==> name[i] != DOT
  {
    if name == [] || name[0] == DOT then 0 else 1 + DotAt(name[1..])
  }

  /** `n` bytes: the text in upper case, padded with spaces. */
  function Padded(text: seq<byte>, n: nat): (r: seq<byte>)
    ensures |r| == n
  {
    seq(n, i requires 0 <= i < n => if i < |text| then Upper(text[i]) else SPACE)
  }

  function Extension(name: seq<byte>): seq<byte> {
    if DotAt(name) < |name| then name[DotAt(name) + 1..] else []
  }

  /** name83: eight bytes of name and three of extension. */
  function Name83(name: seq<byte>): (key: seq<byte>)
    ensures |key| == 11
  {
    Padded(name[..BaseLength(name, 8)], 8) + Padded(Extension(name), 3)
  }

  /** The key of a C string begins with a space or with the upper case of its first byte. */
  lemma KeyStart(name: seq<byte>)
    requires 0 !in name
    ensures Name83(name)[0] != 0
    ensures Name83(name)[0] == 0xe5 <==> name != [] && name[0] == 0xe5
  {
    var key := Name83(name);
    assert key[0] == Padded(name[..BaseLength(name, 8)], 8)[0];
  }

  /** A name: `base`, then perhaps a slash and more that does not count, then perhaps a dot and an extension. */
  function Spelled(base: seq<byte>, skipped: seq<byte>, dotted: bool, ext: seq<byte>): seq<byte> {
    base + skipped + if dotted then [46] + ext else []
  }

  /** Every byte of the key: upper case of the first eight of the base and the first three of the extension. */
  lemma KeyBytes(base: seq<byte>, skipped: seq<byte>, dotted: bool, ext: seq<byte>)
    requires 46 !in base && 47 !in base && 46 !in skipped && (skipped != [] ==> skipped[0] == 47)
    ensures var key := Name83(Spelled(base, skipped, dotted, ext));
            && (forall i :: 0 <= i < 8 ==> key[i] == if i < |base| then Upper(base[i]) else 32)
            && (forall i :: 8 <= i < 11 ==> key[i] == if dotted && i - 8 < |ext| then Upper(ext[i - 8]) else 32)
  {
    hide BaseLength, Extension, Spelled, Upper;
    SpelledDot(base, skipped, dotted, ext);
    SpelledBase(base, skipped, dotted, ext);
  }

  lemma SpelledBase(base: seq<byte>, skipped: seq<byte>, dotted: bool, ext: seq<byte>)
    requires 46 !in base && 47 !in base && 46 !in skipped && (skipped != [] ==> skipped[0] == 47)
    ensures var name := Spelled(base, skipped, dotted, ext);
            name[..BaseLength(name, 8)] == if |base| < 8 then base else base[..8]
  {
    var name := Spelled(base, skipped, dotted, ext);
    var n := BaseLength(name, 8);
    assert forall i :: 0 <= i < |base| ==> name[i] == base[i];
    assert |base| < |name| ==> name[|base|] == if skipped != [] then 47 else 46;
    assert n == if |base| < 8 then |base| else 8;
  }

  lemma SpelledDot(base: seq<byte>, skipped: seq<byte>, dotted: bool, ext: seq<byte>)
    requires 46 !in base && 46 !in skipped
    ensures Extension(Spelled(base, skipped, dotted, ext)) == if dotted then ext else []
  {
    var name, front := Spelled(base, skipped, dotted, ext), base + skipped;
    assert forall i :: 0 <= i < |front| ==> name[i] == front[i] && front[i] != 46;
    assert dotted ==> name[|front|] == 46 && name[|front| + 1..] == ext;
  }

  /** The same letter in either case, or the same byte. */
  predicate Alike(a: byte, b: byte) {
    a == b || (97 <= a <= 122 && b == a - 32) || (97 <= b <= 122 && a == b - 32)
  }

  predicate AlikeText(a: seq<byte>, b: seq<byte>) { |a| == |b| && forall i :: 0 <= i < |a| ==> Alike(a[i], b[i]) }

  lemma UpperAlike(a: byte, b: byte)
    ensures Upper(a) == Upper(b) <==> Alike(a, b)
  {
  }

  /** A name that fits eight and three bytes, without spaces. */
  predicate Fits83(base: seq<byte>, ext: seq<byte>) {
    |base| <= 8 && |ext| <= 3 && 32 !in base && 32 !in ext && 46 !in base && 47 !in base && 46 !in ext
  }

  function Dotted(base: seq<byte>, ext: seq<byte>): seq<byte> { base + [46] + ext }

  /** Two names that fit have one key exactly when they agree up to case. */
  lemma SameKeyIff(base: seq<byte>, ext: seq<byte>, base': seq<byte>, ext': seq<byte>)
    requires Fits83(base, ext) && Fits83(base', ext')
    ensures Name83(Dotted(base, ext)) == Name83(Dotted(base', ext')) <==> AlikeText(base, base') && AlikeText(ext, ext')
  {
    hide Name83, Upper, Alike;
    assert Dotted(base, ext) == Spelled(base, [], true, ext) && Dotted(base', ext') == Spelled(base', [], true, ext');
    KeyBytes(base, [], true, ext);
    KeyBytes(base', [], true, ext');
    var key, key' := Name83(Dotted(base, ext)), Name83(Dotted(base', ext'));
    SamePart(key[..8], key'[..8], base, base');
    SamePart(key[8..], key'[8..], ext, ext');
    assert key == key[..8] + key[8..] && key' == key'[..8] + key'[8..];
  }

  lemma SamePart(key: seq<byte>, key': seq<byte>, a: seq<byte>, b: seq<byte>)
    requires |key| == |key'| && |a| <= |key| && |b| <= |key| && 32 !in a && 32 !in b
    requires forall i :: 0 <= i < |key| ==> key[i] == if i < |a| then Upper(a[i]) else 32
    requires forall i :: 0 <= i < |key| ==> key'[i] == if i < |b| then Upper(b[i]) else 32
    ensures key == key' <==> AlikeText(a, b)
  {
    hide Upper, Alike;
    forall i | 0 <= i < |a| && i < |b| ensures Upper(a[i]) == Upper(b[i]) <==> Alike(a[i], b[i])
      { UpperAlike(a[i], b[i]); }
    if key == key' {
      if |a| < |b| { assert key[|a|] == 32; NotSpace(b[|a|]); }
      if |b| < |a| { assert key'[|b|] == 32; NotSpace(a[|b|]); }
      forall i | 0 <= i < |a| ensures Alike(a[i], b[i]) { assert key[i] == key'[i]; }
    }
  }

  lemma NotSpace(c: byte)
    requires c != 32
    ensures Upper(c) != 32
  {
  }
}
