/**
 The two text forms of the account table (kernel/security/auth.c): the shadow text with salted
 password hashes and the accounts text with ids, roles and groups. Printing and parsing are
 functions here; the round trip is proved about them.
 */
module AccountText {
  import opened Bytes

  const COLON: byte := 58
  const NEWLINE: byte := 10
  const DOLLAR: byte := 36
  const HASH: byte := 35
  const BANG: byte := 33
  const MAX_USERS: nat := 16
  const WORD: nat := 0x1_0000_0000

  datatype Record = Record(user: seq<byte>, salt: seq<byte>, hash: seq<byte>, locked: bool, uid: nat, gid: nat,
      role: nat, groups: nat)

  datatype Option<T> = None | Some(value: T)

  /** "$pbkdf2-sha256$10000$". */
  function Prefix(): (p: seq<byte>)
    ensures |p| == 21
  {
    [36, 112, 98, 107, 100, 102, 50, 45, 115, 104, 97, 50, 53, 54, 36, 49, 48, 48, 48, 48, 36]
  }

  function RootName(): seq<byte> { [114, 111, 111, 116] }

  function NobodyName(): seq<byte> { [110, 111, 98, 111, 100, 121] }

  function NoHash(): (h: seq<byte>)
    ensures |h| == 32
  {
    seq(32, _ => 0)
  }

  // ------------------------------------------------------------------ scanning

  /** Position of the first `c`, or the length. */
  function Find(text: seq<byte>, c: byte): (n: nat)
    ensures n <= |text| && (n < |text| ==> text[n] == c) && forall i :: 0 <= i < n ==> text[i] != c
  {
    if text == [] || text[0] == c then 0 else 1 + Find(text[1..], c)
  }

  lemma {:induction false} FindAt(a: seq<byte>, c: byte, b: seq<byte>)
    requires c !in a
    ensures Find(a + [c] + b, c) == |a|
  {
    if a != [] {
      assert (a + [c] + b)[1..] == a[1..] + [c] + b;
      FindAt(a[1..], c, b);
    }
  }

  lemma {:induction false} FindNone(a: seq<byte>, c: byte)
    requires c !in a
    ensures Find(a, c) == |a|
  {
    if a != [] { FindNone(a[1..], c); }
  }

  /** A C string held in the bytes: up to the first zero. */
  function CString(b: seq<byte>): seq<byte> { b[..Find(b, 0)] }

  function Clip(b: seq<byte>, n: nat): seq<byte> { if |b| > n then b[..n] else b }

  // --------------------------------------------------------------- hexadecimal

  function HexDigit(v: nat): byte
    requires v < 16
  {
    if v < 10 then 48 + v else 97 + v - 10
  }

  /** hex: the value of a digit in either case, or 16 for any other byte. */
  function HexValue(c: byte): (v: nat)
    ensures v <= 16
  {
    if 48 <= c <= 57 then c - 48 else if 97 <= c <= 102 then c - 87 else if 65 <= c <= 70 then c - 55 else 16
  }

  function Hex(b: seq<byte>): (t: seq<byte>)
    ensures |t| == 2 * |b|
  {
    if b == [] then [] else [HexDigit(b[0] / 16), HexDigit(b[0] % 16)] + Hex(b[1..])
  }

  /** `n` bytes from pairs of hexadecimal digits; what follows is not looked at. */
  function UnHex(t: seq<byte>, n: nat): Option<seq<byte>> {
    if n == 0 then Some([])
    else if |t| < 2 || HexValue(t[0]) > 15 || HexValue(t[1]) > 15 then None
    else match UnHex(t[2..], n - 1)
      case None => None
      case Some(rest) => Some([HexByte(HexValue(t[0]), HexValue(t[1]))] + rest)
  }

  function HexByte(a: nat, b: nat): byte
    requires a < 16 && b < 16
  {
    a * 16 + b
  }

  lemma {:induction false} HexBack(b: seq<byte>)
    ensures UnHex(Hex(b), |b|) == Some(b)
  {
    if b != [] {
      HexBack(b[1..]);
      assert Hex(b)[2..] == Hex(b[1..]);
      assert [b[0]] + b[1..] == b;
    }
  }

  // ------------------------------------------------------------------- decimal

  predicate IsDigit(c: byte) { 48 <= c <= 57 }

  function Decimal(v: nat): (t: seq<byte>)
    ensures t != [] && forall i :: 0 <= i < |t| ==> IsDigit(t[i])
  {
    if v < 10 then [48 + v] else Decimal(v / 10) + [48 + v % 10]
  }

  function Digits(t: seq<byte>): (n: nat)
    ensures n <= |t| && (n < |t| ==> !IsDigit(t[n])) && forall i :: 0 <= i < n ==> IsDigit(t[i])
  {
    if t == [] || !IsDigit(t[0]) then 0 else 1 + Digits(t[1..])
  }

  /** The 32-bit value of a run of digits. */
  function Value(t: seq<byte>): (v: nat)
    requires forall i :: 0 <= i < |t| ==> IsDigit(t[i])
    ensures v < WORD
  {
    if t == [] then 0 else (Value(t[..|t| - 1]) * 10 + DigitValue(t[|t| - 1])) % WORD
  }

  function DigitValue(c: byte): nat
    requires IsDigit(c)
  {
    c - 48
  }

  function Number(t: seq<byte>): nat { Value(t[..Digits(t)]) }

  lemma {:induction false} DecimalBack(v: nat)
    requires v < WORD
    ensures Value(Decimal(v)) == v
  {
    if v >= 10 {
      var t := Decimal(v);
      assert t[..|t| - 1] == Decimal(v / 10);
      DecimalBack(v / 10);
    } else {
      assert Decimal(v)[..0] == [];
    }
  }

  lemma {:induction false} DigitsEnd(t: seq<byte>, c: byte, rest: seq<byte>)
    requires (forall i :: 0 <= i < |t| ==> IsDigit(t[i])) && !IsDigit(c)
    ensures Digits(t + [c] + rest) == |t|
  {
    if t != [] {
      assert (t + [c] + rest)[1..] == t[1..] + [c] + rest;
      DigitsEnd(t[1..], c, rest);
    }
  }

  /** A printed number followed by something that is no digit reads back. */
  lemma NumberBack(v: nat, c: byte, rest: seq<byte>)
    requires v < WORD && !IsDigit(c)
    ensures var t := Decimal(v) + [c] + rest;
            Number(t) == v && Digits(t) == |Decimal(v)| && t[Digits(t)..] == [c] + rest
  {
    hide Decimal, Value, Digits;
    var t := Decimal(v) + [c] + rest;
    DigitsEnd(Decimal(v), c, rest);
    DecimalBack(v);
    assert t[..|Decimal(v)|] == Decimal(v);
  }

  lemma DecimalLength(v: nat)
    ensures v < 10 ==> |Decimal(v)| == 1
    ensures v < 0x1_0000 ==> |Decimal(v)| <= 5
    ensures v < WORD ==> |Decimal(v)| <= 10
  {
    Shorter(v, 1, 10);
    Shorter(v, 5, 100000);
    Shorter(v, 10, 10000000000);
  }

  lemma {:induction false} Shorter(v: nat, k: nat, bound: nat)
    requires k >= 1 && bound == Ten(k)
    ensures v < bound ==> |Decimal(v)| <= k
    decreases k
  {
    if v >= 10 && v < bound {
      assert k > 1;
      Shorter(v / 10, k - 1, Ten(k - 1));
    }
  }

  function Ten(k: nat): nat { if k == 0 then 1 else 10 * Ten(k - 1) }

  // -------------------------------------------------------------- shadow text

  /** defaults: ids, role and groups that follow from the name and the position. */
  function WithDefaults(r: Record, index: nat): Record {
    if r.user == RootName() then r.(uid := 0, gid := 0, role := 0, groups := 0x323)
    else if r.user == NobodyName() then r.(uid := 65534, gid := 65534, role := 4, groups := 0)
    else r.(uid := (1000 + index) % 0x1_0000, gid := 100, role := 3, groups := 4)
  }

  function Bare(user: seq<byte>): Record { Record(user, [], NoHash(), false, 0, 0, 0, 0) }

  function ShadowLine(r: Record): seq<byte> {
    r.user + [COLON] + if r.locked then [BANG] else Prefix() + r.salt + [DOLLAR] + Hex(r.hash)
  }

  function ShadowText(rs: seq<Record>): seq<byte> {
    if rs == [] then [] else ShadowLine(rs[0]) + [NEWLINE] + ShadowText(rs[1..])
  }

  /** The part of parse_line behind the name. */
  function ParseSecret(r: Record, t: seq<byte>): Option<Record> {
    if t != [] && t[0] == BANG then Some(r.(locked := true))
    else if !(Prefix() <= t) then None
    else
      var s := t[|Prefix()|..];
      var n := Find(s, DOLLAR);
      if n == |s| || n > 31 then None
      else match UnHex(s[n + 1..], 32)
        case None => None
        case Some(h) => Some(r.(salt := CString(s[..n]), hash := h))
  }

  /** parse_line. */
  function ParseLine(line: seq<byte>, index: nat): Option<Record> {
    var c := Find(line, COLON);
    if index >= MAX_USERS || c == 0 || c == |line| then None
    else ParseSecret(WithDefaults(Bare(CString(Clip(line[..c], 15))), index), line[c + 1..])
  }

  /** auth_load's loop: lines that are empty or begin with # are skipped, a bad line stops. */
  function Load(text: seq<byte>, rs: seq<Record>): (bool, seq<Record>)
    decreases |text|
  {
    if text == [] then (true, rs)
    else
      var e := Find(text, NEWLINE);
      var line, rest := text[..e], if e < |text| then text[e + 1..] else [];
      if line == [] || line[0] == HASH then Load(rest, rs)
      else match ParseLine(line, |rs|)
        case None => (false, rs)
        case Some(r) => Load(rest, rs + [r])
  }

  // ------------------------------------------------------------- accounts text

  function AccountLine(r: Record): seq<byte> {
    r.user + [COLON] + (Decimal(r.uid) + [COLON] + (Decimal(r.gid) + [COLON]
        + (Decimal(r.role) + [COLON] + (Decimal(r.groups) + [NEWLINE] + []))))
  }

  function AccountsText(rs: seq<Record>): seq<byte> {
    if rs == [] then [] else AccountLine(rs[0]) + AccountsText(rs[1..])
  }

  /** find: position of the first record of that name, or the length. */
  function Position(rs: seq<Record>, user: seq<byte>): (i: nat)
    ensures i <= |rs| && (i < |rs| ==> rs[i].user == user) && forall j :: 0 <= j < i ==> rs[j].user != user
  {
    if rs == [] || rs[0].user == user then 0 else 1 + Position(rs[1..], user)
  }

  function SkipLine(t: seq<byte>): seq<byte> { if Find(t, NEWLINE) < |t| then t[Find(t, NEWLINE) + 1..] else [] }

  /** What `number` leaves unread. */
  function AfterNumber(t: seq<byte>): seq<byte> { t[Digits(t)..] }

  /** Position of the first colon or newline, or the length. */
  function NameEnd(t: seq<byte>): (n: nat)
    ensures n <= |t| && (n < |t| ==> t[n] == COLON || t[n] == NEWLINE) && forall i :: 0 <= i < n ==>
              t[i] != COLON && t[i] != NEWLINE
  {
    if t == [] || t[0] == COLON || t[0] == NEWLINE then 0 else 1 + NameEnd(t[1..])
  }

  predicate At(t: seq<byte>, c: byte) { t != [] && t[0] == c }

  /** One line of auth_load_accounts for record `r`: the fields read before a missing colon are kept. */
  function ParseFields(r: Record, t: seq<byte>): (bool, Record, seq<byte>) {
    var r1, t1 := r.(uid := Number(t) % 0x1_0000), AfterNumber(t);
    if !At(t1, COLON) then (false, r1, t1)
    else
      var r2, t2 := r1.(gid := Number(t1[1..]) % 0x1_0000), AfterNumber(t1[1..]);
      if !At(t2, COLON) then (false, r2, t2)
      else
        var r3, t3 := r2.(role := Number(t2[1..])), AfterNumber(t2[1..]);
        if !At(t3, COLON) then (false, r3, t3)
        else (true, r3.(groups := Number(t3[1..])), SkipLine(AfterNumber(t3[1..])))
  }

  /** auth_load_accounts: lines of unknown users are skipped. */
  function LoadAccounts(t: seq<byte>, rs: seq<Record>): (bool, seq<Record>)
    decreases |t|
  {
    if t == [] then (true, rs)
    else
      var e := NameEnd(t);
      var user := CString(Clip(t[..e], 15));
      if e == |t| || t[e] != COLON then (false, rs)
      else
        var i := Position(rs, user);
        if i == |rs| then LoadAccounts(SkipLine(t[e + 1..]), rs)
        else
          var (ok, r, rest) := ParseFields(rs[i], t[e + 1..]);
          if ok then RestShorter(rs[i], t[e + 1..]); LoadAccounts(rest, rs[i := r]) else (false, rs[i := r])
  }

  lemma RestShorter(r: Record, t: seq<byte>)
    ensures ParseFields(r, t).0 ==> |ParseFields(r, t).2| <= |t|
  {
    hide Number, Find, Digits;
  }

  // --------------------------------------------------------------- round trip

  /**
   A record as record_t can hold it: strings without zero bytes that fit their arrays, and numbers that fit their
   fields.
   */
  predicate Sound(r: Record) {
    && |r.user| <= 15 && 0 !in r.user && |r.salt| <= 31 && 0 !in r.salt && |r.hash| == 32
    && r.uid < 0x1_0000 && r.gid < 0x1_0000 && r.role < WORD && r.groups < WORD
  }

  /** A record whose texts the separators cannot break. */
  predicate Separable(r: Record) {
    && r.user != [] && r.user[0] != HASH && COLON !in r.user && NEWLINE !in r.user
    && DOLLAR !in r.salt && NEWLINE !in r.salt
  }

  predicate Plain(r: Record) { Sound(r) && Separable(r) }

  /** A locked record has neither salt nor hash. */
  predicate Sealed(r: Record) { r.locked ==> r.salt == [] && r.hash == NoHash() }

  /** What a record keeps in the shadow text: a locked one has neither salt nor hash there. */
  function Kept(r: Record): Record { if r.locked then r.(salt := [], hash := NoHash()) else r }

  lemma NoZero(b: seq<byte>)
    requires 0 !in b
    ensures CString(b) == b
  {
    FindNone(b, 0);
  }

  lemma SecretBack(r: Record, d: Record)
    requires Plain(r) && !r.locked && d.salt == [] && d.hash == NoHash() && !d.locked
    ensures ParseSecret(d, Prefix() + r.salt + [DOLLAR] + Hex(r.hash)) == Some(d.(salt := r.salt, hash := r.hash))
  {
    hide Find, Hex, UnHex, CString;
    var t := Prefix() + r.salt + [DOLLAR] + Hex(r.hash);
    var s := t[|Prefix()|..];
    assert s == r.salt + [DOLLAR] + Hex(r.hash);
    FindAt(r.salt, DOLLAR, Hex(r.hash));
    assert s[..|r.salt|] == r.salt && s[|r.salt| + 1..] == Hex(r.hash);
    NoZero(r.salt);
    HexBack(r.hash);
    assert t[0] == DOLLAR;
  }

  lemma LineBack(r: Record, i: nat)
    requires Plain(r) && i < MAX_USERS
    ensures ParseLine(ShadowLine(r), i) == Some(WithDefaults(Kept(r), i))
  {
    hide Find, Hex, ParseSecret, CString, Prefix, RootName, NobodyName;
    var secret := if r.locked then [BANG] else Prefix() + r.salt + [DOLLAR] + Hex(r.hash);
    var line := ShadowLine(r);
    assert line == r.user + [COLON] + secret;
    FindAt(r.user, COLON, secret);
    assert line[..|r.user|] == r.user && line[|r.user| + 1..] == secret;
    NoZero(r.user);
    var d := WithDefaults(Bare(r.user), i);
    if r.locked {
      Locked(d);
    } else {
      SecretBack(r, d);
    }
  }

  lemma Locked(d: Record)
    ensures ParseSecret(d, [BANG]) == Some(d.(locked := true))
  {
  }

  lemma {:induction false} HexPlain(b: seq<byte>)
    ensures NEWLINE !in Hex(b)
  {
    if b != [] { HexPlain(b[1..]); }
  }

  lemma PrefixPlain()
    ensures NEWLINE !in Prefix()
  {
  }

  lemma LineIsOne(r: Record)
    requires Plain(r)
    ensures NEWLINE !in ShadowLine(r) && ShadowLine(r) != [] && ShadowLine(r)[0] != HASH
  {
    hide Hex, Prefix;
    HexPlain(r.hash);
    PrefixPlain();
    assert ShadowLine(r)[0] == r.user[0];
  }

  /** The records the shadow text gives back, numbered from `i`. */
  function Reloaded(rs: seq<Record>, i: nat): (out: seq<Record>)
    ensures |out| == |rs|
  {
    seq(|rs|, k requires 0 <= k < |rs| => WithDefaults(Kept(rs[k]), i + k))
  }

  lemma ShadowStep(rs: seq<Record>, before: seq<Record>)
    requires rs != [] && |before| < MAX_USERS && Plain(rs[0])
    ensures Load(ShadowText(rs), before) == Load(ShadowText(rs[1..]), before + [WithDefaults(Kept(rs[0]), |before|)])
  {
    hide Find, ParseLine, ShadowLine, WithDefaults, Plain;
    var text, line, rest := ShadowText(rs), ShadowLine(rs[0]), ShadowText(rs[1..]);
    LineIsOne(rs[0]);
    FindAt(line, NEWLINE, rest);
    assert text == line + [NEWLINE] + rest;
    assert text[..|line|] == line && text[|line| + 1..] == rest;
    LineBack(rs[0], |before|);
  }

  lemma ReloadedSplits(rs: seq<Record>, before: seq<Record>)
    ensures rs == [] ==> before + Reloaded(rs, |before|) == before
    ensures rs != [] ==>
              before + Reloaded(rs, |before|) == (before + [WithDefaults(Kept(rs[0]), |before|)])
                  + Reloaded(rs[1..], |before| + 1)
  {
    hide WithDefaults, Kept;
  }

  /** Loading the printed shadow text rebuilds every record, in order, with default ids. */
  lemma {:induction false} ShadowBack(rs: seq<Record>, before: seq<Record>)
    requires |before| + |rs| <= MAX_USERS && forall k :: 0 <= k < |rs| ==> Plain(rs[k])
    ensures Load(ShadowText(rs), before) == (true, before + Reloaded(rs, |before|))
    decreases rs
  {
    hide Load, ShadowText, WithDefaults, Kept, Plain, Reloaded;
    ReloadedSplits(rs, before);
    if rs == [] {
      NoText(before);
    } else {
      ShadowStep(rs, before);
      ShadowBack(rs[1..], before + [WithDefaults(Kept(rs[0]), |before|)]);
    }
  }

  lemma NoText(before: seq<Record>)
    ensures Load(ShadowText([]), before) == (true, before)
  {
  }

  /** The four numbers of a printed line read back, and the whole line is consumed. */
  lemma FieldsBack(r: Record, d: Record, rest: seq<byte>)
    requires r.uid < 0x1_0000 && r.gid < 0x1_0000 && r.role < WORD && r.groups < WORD
    ensures var t := Decimal(r.uid) + [COLON] + (Decimal(r.gid) + [COLON]
            + (Decimal(r.role) + [COLON] + (Decimal(r.groups) + [NEWLINE] + rest)));
            ParseFields(d, t) == (true, d.(uid := r.uid, gid := r.gid, role := r.role, groups := r.groups), rest)
  {
    hide Decimal, Number, AfterNumber, SkipLine;
    var t4 := Decimal(r.groups) + [NEWLINE] + rest;
    var t3 := Decimal(r.role) + [COLON] + t4;
    var t2 := Decimal(r.gid) + [COLON] + t3;
    FieldBack(r.uid, COLON, t2);
    FieldBack(r.gid, COLON, t3);
    FieldBack(r.role, COLON, t4);
    FieldBack(r.groups, NEWLINE, rest);
    LineSkipped(rest);
  }

  lemma FieldBack(v: nat, c: byte, rest: seq<byte>)
    requires v < WORD && !IsDigit(c)
    ensures var t := Decimal(v) + [c] + rest;
            Number(t) == v && AfterNumber(t) == [c] + rest && At(AfterNumber(t), c) && AfterNumber(t)[1..] == rest
  {
    hide Decimal, Number, Digits;
    NumberBack(v, c, rest);
    assert ([c] + rest)[1..] == rest;
  }

  lemma LineSkipped(rest: seq<byte>)
    ensures SkipLine([NEWLINE] + rest) == rest
  {
    assert ([NEWLINE] + rest)[1..] == rest;
  }

  lemma {:induction false} NameEndAt(a: seq<byte>, b: seq<byte>)
    requires COLON !in a && NEWLINE !in a
    ensures NameEnd(a + [COLON] + b) == |a|
  {
    if a != [] {
      assert (a + [COLON] + b)[1..] == a[1..] + [COLON] + b;
      NameEndAt(a[1..], b);
    }
  }

  predicate DistinctUsers(rs: seq<Record>) { forall i, j :: 0 <= i < j < |rs| ==> rs[i].user != rs[j].user }

  /** The fields of `rs[k]`, with everything else as in `d`. */
  function Fields(r: Record, d: Record): Record { d.(uid := r.uid, gid := r.gid, role := r.role, groups := r.groups) }

  /** The table once the first `k` account lines are loaded. */
  function Updated(rs: seq<Record>, base: seq<Record>, k: nat): (out: seq<Record>)
    requires |base| == |rs|
    ensures |out| == |rs|
  {
    seq(|rs|, i requires 0 <= i < |rs| => if i < k then Fields(rs[i], base[i]) else base[i])
  }

  lemma {:induction false} AccountsBack(rs: seq<Record>, base: seq<Record>, k: nat)
    requires |base| == |rs| && k <= |rs| && DistinctUsers(rs) && forall i :: 0 <= i < |rs| ==>
               Plain(rs[i]) && base[i].user == rs[i].user
    ensures LoadAccounts(AccountsText(rs[k..]), Updated(rs, base, k)) == (true, Updated(rs, base, |rs|))
    decreases |rs| - k
  {
    hide Decimal, ParseFields, CString, NameEnd, Position, AccountsText, LoadAccounts, Updated, AccountLine;
    if k == |rs| {
      assert rs[k..] == [];
      NoLines(rs, base);
    } else {
      AccountStep(rs, base, k);
      AccountsBack(rs, base, k + 1);
    }
  }

  lemma NoLines(rs: seq<Record>, base: seq<Record>)
    requires |base| == |rs|
    ensures LoadAccounts(AccountsText([]), Updated(rs, base, |rs|)) == (true, Updated(rs, base, |rs|))
  {
  }

  lemma AccountStep(rs: seq<Record>, base: seq<Record>, k: nat)
    requires |base| == |rs| && k < |rs| && DistinctUsers(rs) && forall i :: 0 <= i < |rs| ==>
               Plain(rs[i]) && base[i].user == rs[i].user
    ensures LoadAccounts(AccountsText(rs[k..]), Updated(rs, base, k))
            == LoadAccounts(AccountsText(rs[k + 1..]), Updated(rs, base, k + 1))
  {
    hide Decimal, ParseFields, CString, NameEnd, Position;
    var r, rest, cur := rs[k], AccountsText(rs[k + 1..]), Updated(rs, base, k);
    var fields := Decimal(r.uid) + [COLON] + (Decimal(r.gid) + [COLON]
        + (Decimal(r.role) + [COLON] + (Decimal(r.groups) + [NEWLINE] + rest)));
    var t := AccountsText(rs[k..]);
    TextSplits(rs, k);
    assert t == r.user + [COLON] + fields;
    NameEndAt(r.user, fields);
    assert t[..|r.user|] == r.user && t[|r.user| + 1..] == fields;
    NoZero(r.user);
    FoundAt(rs, cur, k);
    FieldsBack(r, cur[k], rest);
    assert cur[k := Fields(r, cur[k])] == Updated(rs, base, k + 1);
  }

  lemma TextSplits(rs: seq<Record>, k: nat)
    requires k < |rs|
    ensures var r, rest := rs[k], AccountsText(rs[k + 1..]);
            AccountsText(rs[k..]) == r.user + [COLON] + (Decimal(r.uid) + [COLON]
                + (Decimal(r.gid) + [COLON] + (Decimal(r.role) + [COLON] + (Decimal(r.groups) + [NEWLINE] + rest))))
  {
    hide Decimal;
    assert rs[k..][1..] == rs[k + 1..];
  }

  lemma FoundAt(rs: seq<Record>, cur: seq<Record>, k: nat)
    requires |cur| == |rs| && k < |rs| && DistinctUsers(rs) && forall i :: 0 <= i < |rs| ==> cur[i].user == rs[i].user
    ensures Position(cur, rs[k].user) == k
  {
    hide Position;
    var p := Position(cur, rs[k].user);
    assert cur[k].user == rs[k].user;
    assert forall j :: 0 <= j < k ==> cur[j].user != rs[k].user;
  }

  /** Loading both printed texts: first the shadow text, then the accounts text. */
  function LoadBoth(shadow: seq<byte>, accounts: seq<byte>): (bool, seq<Record>) {
    var (ok, rs) := Load(shadow, []);
    if !ok || rs == [] then (false, rs) else LoadAccounts(accounts, rs)
  }

  /**
   Printing both texts and loading them again rebuilds the table in the same order, apart from the salts and
   hashes of locked records, which the shadow text does not carry.
   */
  lemma TableBack(rs: seq<Record>)
    requires 1 <= |rs| <= MAX_USERS && DistinctUsers(rs) && forall i :: 0 <= i < |rs| ==> Plain(rs[i])
    ensures LoadBoth(ShadowText(rs), AccountsText(rs)) == (true, seq(|rs|, i requires 0 <= i < |rs| => Kept(rs[i])))
  {
    hide Load, LoadAccounts, ShadowText, AccountsText, Plain, Reloaded, Updated, Kept;
    ShadowBack(rs, []);
    var base := Reloaded(rs, 0);
    assert [] + base == base;
    ReloadedUsers(rs);
    AccountsBack(rs, base, 0);
    assert rs[0..] == rs;
    UpdatedEnds(rs);
  }

  lemma ReloadedUsers(rs: seq<Record>)
    ensures forall i :: 0 <= i < |rs| ==> Reloaded(rs, 0)[i].user == rs[i].user
  {
  }

  lemma UpdatedEnds(rs: seq<Record>)
    ensures Updated(rs, Reloaded(rs, 0), 0) == Reloaded(rs, 0)
    ensures Updated(rs, Reloaded(rs, 0), |rs|) == seq(|rs|, i requires 0 <= i < |rs| => Kept(rs[i]))
  {
    hide RootName, NobodyName, NoHash;
    forall i | 0 <= i < |rs| ensures Updated(rs, Reloaded(rs, 0), |rs|)[i] == Kept(rs[i]) { }
  }

  /** The table comes back unchanged exactly when no locked record carries a salt or a hash, as every table is. */
  lemma TableBackIff(rs: seq<Record>)
    requires 1 <= |rs| <= MAX_USERS && DistinctUsers(rs) && forall i :: 0 <= i < |rs| ==> Plain(rs[i])
    ensures LoadBoth(ShadowText(rs), AccountsText(rs)) == (true, rs)
            <==> forall i :: 0 <= i < |rs| ==> Sealed(rs[i])
  {
    hide LoadBoth, ShadowText, AccountsText, Plain, NoHash;
    TableBack(rs);
    var back := seq(|rs|, i requires 0 <= i < |rs| => Kept(rs[i]));
    if forall i :: 0 <= i < |rs| ==> Sealed(rs[i]) {
      assert back == rs;
    } else {
      var i :| 0 <= i < |rs| && !Sealed(rs[i]);
      assert back[i] != rs[i];
    }
  }

  // -------------------------------------------------------------------- sizes

  lemma LineSizes(r: Record)
    requires Sound(r)
    ensures |ShadowLine(r)| <= 133 && |AccountLine(r)| <= 50
  {
    hide Decimal, Hex;
    DecimalLength(r.uid);
    DecimalLength(r.gid);
    DecimalLength(r.role);
    DecimalLength(r.groups);
  }

  lemma {:induction false} TextSizes(rs: seq<Record>)
    requires forall i :: 0 <= i < |rs| ==> Sound(rs[i])
    ensures |ShadowText(rs)| <= 134 * |rs| && |AccountsText(rs)| <= 50 * |rs|
  {
    hide ShadowLine, AccountLine, Sound;
    if rs != [] {
      LineSizes(rs[0]);
      TextSizes(rs[1..]);
    }
  }

  /** Both texts of a full table fit in 4096 bytes. */
  lemma TextsFit(rs: seq<Record>)
    requires |rs| <= MAX_USERS && forall i :: 0 <= i < |rs| ==> Sound(rs[i])
    ensures |ShadowText(rs)| <= 2144 && |AccountsText(rs)| <= 800
  {
    hide ShadowText, AccountsText, Sound;
    TextSizes(rs);
  }
}
