/**
 The account table of kernel/security/auth.c: exporting it as two texts and loading it back. The
 loops are proved against the printing and parsing functions of AccountText.
 */
module Accounts {
  import opened Bytes
  import opened AccountText
  import opened AccountTable
  import AccountLaws
  import Crypto

  // ----------------------------------------------------------------- scanning

  method IndexOf(text: seq<byte>, c: byte) returns (n: nat)
    ensures n == Find(text, c)
  {
    n := 0;
    assert text[0..] == text;
    while n < |text| && text[n] != c
      invariant n <= |text| && n + Find(text[n..], c) == Find(text, c)
    {
      assert text[n..][1..] == text[n + 1..];
      n := n + 1;
    }
  }

  method EndOfName(t: seq<byte>) returns (n: nat)
    ensures n == NameEnd(t)
  {
    n := 0;
    assert t[0..] == t;
    while n < |t| && t[n] != COLON && t[n] != NEWLINE
      invariant n <= |t| && n + NameEnd(t[n..]) == NameEnd(t)
    {
      assert t[n..][1..] == t[n + 1..];
      n := n + 1;
    }
  }

  /** number: the value of the digits in 32 bits, and the text behind them. */
  method ReadNumber(t: seq<byte>) returns (v: nat, rest: seq<byte>)
    ensures v == Number(t) && rest == AfterNumber(t)
  {
    v := 0;
    var n := 0;
    assert t[0..] == t;
    while n < |t| && IsDigit(t[n])
      invariant n <= Digits(t) && n + Digits(t[n..]) == Digits(t) && v == Value(t[..n])
      decreases |t| - n
    {
      assert t[n..][1..] == t[n + 1..];
      assert t[..n + 1][..n] == t[..n];
      v := (v * 10 + DigitValue(t[n])) % WORD;
      n := n + 1;
    }
    rest := t[n..];
  }

  // ----------------------------------------------------------------- printing

  /** Appends a text byte by byte, as long as there is room. */
  method PutText(d: seq<byte>, cap: nat, text: seq<byte>) returns (ok: bool, r: seq<byte>)
    requires |d| <= cap
    ensures ok == (|d| + |text| <= cap) && |r| <= cap && (ok ==> r == d + text)
  {
    r := d;
    for i := 0 to |text|
      invariant r == d + text[..i] && |r| <= cap
    {
      if |r| >= cap { return false, r; }
      assert text[..i + 1] == text[..i] + [text[i]];
      r := r + [text[i]];
    }
    assert text[..|text|] == text;
    ok := true;
  }

  /** putnum: the digits are collected from the low end, then appended in order. */
  method PutNumber(d: seq<byte>, cap: nat, v: nat) returns (ok: bool, r: seq<byte>)
    requires |d| <= cap
    ensures ok == (|d| + |Decimal(v)| <= cap) && |r| <= cap && (ok ==> r == d + Decimal(v))
  {
    var b: seq<byte> := [];
    var left: nat := v;
    if left == 0 { b := [48]; }
    while left > 0
      invariant v > 0 && left == 0 ==> b == Decimal(v)
      invariant left > 0 ==> Decimal(left) + b == Decimal(v)
      invariant v == 0 ==> left == 0 && b == [48]
    {
      var digit: byte := 48 + left % 10;
      assert left >= 10 ==> Decimal(left) + b == Decimal(left / 10) + ([digit] + b);
      b := [digit] + b;
      left := left / 10;
    }
    assert Decimal(0) == [48];
    assert b == Decimal(v);
    ok, r := PutText(d, cap, b);
  }

  method HexText(b: seq<byte>) returns (t: seq<byte>)
    ensures t == Hex(b)
  {
    hide HexDigit, Hex;
    t := [];
    assert b[0..] == b && [] + Hex(b) == Hex(b);
    for i := 0 to |b|
      invariant t + Hex(b[i..]) == Hex(b)
    {
      HexStep(t, b, i);
      t := t + [HexDigit(b[i] / 16), HexDigit(b[i] % 16)];
    }
  }

  lemma HexStep(t: seq<byte>, b: seq<byte>, i: nat)
    requires i < |b|
    ensures t + Hex(b[i..]) == t + [HexDigit(b[i] / 16), HexDigit(b[i] % 16)] + Hex(b[i + 1..])
  {
    hide HexDigit;
    assert b[i..][1..] == b[i + 1..];
  }

  // ------------------------------------------------------------------ parsing

  /** The loop that reads 32 bytes of hexadecimal digits. */
  method ReadHash(t: seq<byte>) returns (ok: bool, h: seq<byte>)
    ensures UnHex(t, 32) == if ok then Some(h) else None
  {
    hide HexValue;
    h := [];
    assert t[2 * 0..] == t;
    JoinedNothing(UnHex(t, 32));
    for i := 0 to 32
      invariant |h| == i && 2 * i <= |t| && UnHex(t, 32) == Joined(h, UnHex(t[2 * i..], 32 - i))
    {
      var s := t[2 * i..];
      if |s| < 2 { return false, h; }
      var a, b := HexValue(s[0]), HexValue(s[1]);
      if a > 15 || b > 15 { return false, h; }
      assert s[2..] == t[2 * (i + 1)..];
      JoinedMore(h, HexByte(a, b), UnHex(s[2..], 31 - i));
      h := h + [HexByte(a, b)];
    }
    assert UnHex(t[64..], 0) == Some([]);
    assert h + [] == h;
    ok := true;
  }

  function Joined(h: seq<byte>, rest: Option<seq<byte>>): Option<seq<byte>> {
    match rest
    case None => None
    case Some(x) => Some(h + x)
  }

  lemma JoinedNothing(rest: Option<seq<byte>>)
    ensures Joined([], rest) == rest
  {
    match rest
    case None =>
    case Some(x) => assert [] + x == x;
  }

  lemma JoinedMore(h: seq<byte>, c: byte, rest: Option<seq<byte>>)
    ensures Joined(h + [c], rest) == match rest { case None => None case Some(x) => Joined(h, Some([c] + x)) }
  {
    match rest
    case None =>
    case Some(x) => assert h + [c] + x == h + ([c] + x);
  }

  /** The comparison with the scheme's prefix. */
  method StartsWithPrefix(t: seq<byte>) returns (yes: bool)
    ensures yes == (Prefix() <= t)
  {
    hide Prefix;
    var p := Prefix();
    for i := 0 to |p|
      invariant i <= |t| && p[..i] == t[..i]
    {
      if i >= |t| || t[i] != p[i] { return false; }
    }
    assert p[..|p|] == p;
    yes := true;
  }

  /** The part of parse_line behind the name. */
  method ReadSecret(d: Record, t: seq<byte>) returns (ok: bool, r: Record)
    ensures ParseSecret(d, t) == if ok then Some(r) else None
  {
    hide Prefix, UnHex, Find, CString;
    r := d;
    if t != [] && t[0] == BANG { return true, d.(locked := true); }
    var yes := StartsWithPrefix(t);
    if !yes { return false, d; }
    var s := t[|Prefix()|..];
    var n := IndexOf(s, DOLLAR);
    if n == |s| || n > 31 { return false, d; }
    var okh, h := ReadHash(s[n + 1..]);
    if !okh { return false, d; }
    return true, d.(salt := CString(s[..n]), hash := h);
  }

  /** parse_line. */
  method ReadLine(line: seq<byte>, index: nat) returns (ok: bool, r: Record)
    ensures ParseLine(line, index) == if ok then Some(r) else None
  {
    hide ParseSecret, WithDefaults, Find, CString;
    r := Bare([]);
    if index >= MAX_USERS { return false, r; }
    var c := IndexOf(line, COLON);
    if c == 0 || c == |line| { return false, r; }
    var d := WithDefaults(Bare(CString(Clip(line[..c], 15))), index);
    ok, r := ReadSecret(d, line[c + 1..]);
  }

  // ---------------------------------------------------------------- the table

  /** The loop of auth_delete: every record behind `at` takes its neighbour's place, and the last one goes. */
  method MoveUp(rs: seq<Record>, at: nat) returns (r: seq<Record>)
    requires at < |rs|
    ensures r == rs[..at] + rs[at + 1..]
  {
    r := rs;
    for i := at to |rs| - 1
      invariant |r| == |rs|
      invariant forall j :: 0 <= j < at || i <= j < |rs| ==> r[j] == rs[j]
      invariant forall j :: at <= j < i ==> r[j] == rs[j + 1]
    {
      r := r[i := r[i + 1]];
    }
    r := r[..|rs| - 1];
    assert forall j :: at <= j < |r| ==> r[j] == rs[at + 1..][j - at];
  }

  class Database {
    var records: seq<Record>
    var current: nat
    var umask: nat

    /** A user with a record becomes the current one; a guest's new files are closed to others. */
    method Select(user: seq<byte>) returns (ok: bool)
      modifies this`current, this`umask
      ensures ok == (Position(records, user) < |records|)
      ensures ok ==>
                current == Position(records, user) && umask == (if records[current].role == GUEST then 0x3F else 0x12)
      ensures !ok ==> current == old(current) && umask == old(umask)
    {
      hide Position;
      var i := PositionOf(user);
      ok := i < |records|;
      if ok {
        current := i;
        umask := if records[i].role == GUEST then 0x3F else 0x12;
      }
    }

    method PositionOf(user: seq<byte>) returns (i: nat)
      ensures i == Position(records, user)
    {
      i := 0;
      assert records[0..] == records;
      while i < |records| && records[i].user != user
        invariant i <= |records| && i + Position(records[i..], user) == Position(records, user)
      {
        assert records[i..][1..] == records[i + 1..];
        i := i + 1;
      }
    }

    /** One record of auth_export_shadow. */
    method PutShadow(d: seq<byte>, cap: nat, r: Record) returns (ok: bool, out: seq<byte>)
      requires |d| <= cap
      ensures ok == (|d| + |ShadowLine(r)| + 1 <= cap) && |out| <= cap
              && (ok ==> out == d + (ShadowLine(r) + [NEWLINE]))
    {
      hide Prefix, Hex;
      ok, out := PutText(d, cap, r.user);
      if !ok { return; }
      ok, out := PutText(out, cap, [COLON]);
      if !ok { return; }
      if r.locked {
        ok, out := PutText(out, cap, [BANG, NEWLINE]);
        return;
      }
      ok, out := PutText(out, cap, Prefix());
      if !ok { return; }
      ok, out := PutText(out, cap, r.salt);
      if !ok { return; }
      ok, out := PutText(out, cap, [DOLLAR]);
      if !ok { return; }
      var h := HexText(r.hash);
      ok, out := PutText(out, cap, h);
      if !ok { return; }
      ok, out := PutText(out, cap, [NEWLINE]);
    }

    /** auth_export_shadow: the whole text, or nothing when it does not fit. */
    method ExportShadow(cap: nat) returns (d: seq<byte>)
      ensures d == if |ShadowText(records)| <= cap then ShadowText(records) else []
    {
      hide ShadowLine;
      d := [];
      assert records[0..] == records;
      for i := 0 to |records|
        invariant |d| <= cap && d + ShadowText(records[i..]) == ShadowText(records)
      {
        assert records[i..][1..] == records[i + 1..];
        ghost var rest := ShadowText(records[i + 1..]);
        assert d + (ShadowLine(records[i]) + [NEWLINE] + rest) == (d + (ShadowLine(records[i]) + [NEWLINE])) + rest;
        var ok, out := PutShadow(d, cap, records[i]);
        if !ok { return []; }
        d := out;
      }
    }

    /** One record of auth_export_accounts. */
    method PutAccount(d: seq<byte>, cap: nat, r: Record) returns (ok: bool, out: seq<byte>)
      requires |d| <= cap
      ensures ok == (|d| + |AccountLine(r)| <= cap) && |out| <= cap && (ok ==> out == d + AccountLine(r))
    {
      hide Decimal;
      ok, out := PutText(d, cap, r.user);
      if !ok { return; }
      ok, out := PutText(out, cap, [COLON]);
      if !ok { return; }
      ok, out := PutField(out, cap, r.uid, COLON);
      if !ok { return; }
      ok, out := PutField(out, cap, r.gid, COLON);
      if !ok { return; }
      ok, out := PutField(out, cap, r.role, COLON);
      if !ok { return; }
      ok, out := PutField(out, cap, r.groups, NEWLINE);
    }

    /** A number and the byte behind it. */
    method PutField(d: seq<byte>, cap: nat, v: nat, c: byte) returns (ok: bool, out: seq<byte>)
      requires |d| <= cap
      ensures ok == (|d| + |Decimal(v)| + 1 <= cap) && |out| <= cap && (ok ==> out == d + (Decimal(v) + [c]))
    {
      hide Decimal;
      ok, out := PutNumber(d, cap, v);
      if !ok { return; }
      ok, out := PutText(out, cap, [c]);
    }

    /** auth_export_accounts: the whole text, or nothing when it does not fit. */
    method ExportAccounts(cap: nat) returns (d: seq<byte>)
      ensures d == if |AccountsText(records)| <= cap then AccountsText(records) else []
    {
      hide AccountLine;
      d := [];
      assert records[0..] == records;
      for i := 0 to |records|
        invariant |d| <= cap && d + AccountsText(records[i..]) == AccountsText(records)
      {
        assert records[i..][1..] == records[i + 1..];
        ghost var rest := AccountsText(records[i + 1..]);
        assert d + (AccountLine(records[i]) + rest) == (d + AccountLine(records[i])) + rest;
        var ok, out := PutAccount(d, cap, records[i]);
        if !ok { return []; }
        d := out;
      }
    }

    /** auth_load: the table is what the text says, up to the first bad line; root becomes the current user. */
    method Load(text: seq<byte>) returns (ok: bool)
      modifies this
      ensures records == AccountText.Load(text, []).1
      ensures ok == (AccountText.Load(text, []).0 && records != [])
      ensures var root := Position(records, RootName());
              if AccountText.Load(text, []).0 && root < |records|
              then current == root && umask == (if records[root].role == GUEST then 0x3F else 0x12)
              else current == 0 && umask == old(umask)
    {
      hide ParseLine, Find, Position;
      records, current := [], 0;
      var left := text;
      while left != []
        invariant AccountText.Load(left, records) == AccountText.Load(text, []) && current == 0 && umask == old(umask)
        decreases |left|
      {
        var e := IndexOf(left, NEWLINE);
        var line, rest := left[..e], if e < |left| then left[e + 1..] else [];
        if line != [] && line[0] != HASH {
          var okl, r := ReadLine(line, |records|);
          if !okl { return false; }
          records := records + [r];
        }
        left := rest;
      }
      var root := Select(RootName());
      ok := records != [];
    }

    /** auth_load_accounts: ids, roles and groups of known users. */
    method LoadAccounts(text: seq<byte>) returns (ok: bool)
      modifies this`records
      ensures (ok, records) == AccountText.LoadAccounts(text, old(records))
    {
      hide NameEnd, Position, CString, ParseFields, SkipLine, Find, AccountText.LoadAccounts;
      var left := text;
      while left != []
        invariant AccountText.LoadAccounts(left, records) == AccountText.LoadAccounts(text, old(records))
        decreases |left|
      {
        AccountsStep(left, records);
        var e := EndOfName(left);
        var user := CString(Clip(left[..e], 15));
        if e == |left| || left[e] != COLON { return false; }
        var i := PositionOf(user);
        var t := left[e + 1..];
        if i == |records| {
          var n := IndexOf(t, NEWLINE);
          SkipIs(t);
          left := if n < |t| then t[n + 1..] else [];
        } else {
          RestShorter(records[i], t);
          assert |t| < |left|;
          var okf, r, rest := ReadFields(records[i], t);
          records := records[i := r];
          if !okf { return false; }
          left := rest;
        }
      }
      NoAccounts(records);
      ok := true;
    }

    /** hash_password: derives the key and fills salt and hash. */
    method HashPassword(r: Record, password: seq<byte>) returns (r': Record)
      ensures r' == WithPassword(r, password)
    {
      hide Crypto.Block1, Crypto.ShortSalt, SaltPrefix;
      var salt := SaltPrefix();
      var n := 0;
      while n < |r.user| && |salt| < 31
        invariant n <= |r.user| && n <= 21 && salt == SaltPrefix() + r.user[..n]
      {
        assert r.user[..n + 1] == r.user[..n] + [r.user[n]];
        salt := salt + [r.user[n]];
        n := n + 1;
      }
      assert r.user[..n] == Clip(r.user, 21);
      var key := new byte[32];
      var rounds := ROUNDS;
      Crypto.Pbkdf2(password, salt, rounds, key);
      assert key[..] == key[..32];
      r' := r.(salt := salt, hash := key[..], locked := false);
    }

    /** auth_add_role. */
    method AddRole(user: seq<byte>, password: seq<byte>, role: Word) returns (ok: bool)
      modifies this`records
      ensures records == AddStep(old(records), user, password, role)
      ensures ok == (|old(records)| < MAX_USERS && Position(old(records), CString(user)) == |old(records)|
              && role <= GUEST)
    {
      hide CString, Clip, WithDefaults, Position, WithPassword, OrWord;
      var i := PositionOf(CString(user));
      if |records| >= MAX_USERS || i < |records| || role > GUEST { return false; }
      var r := NewRecord(user, |records|);
      ghost var bare := r;
      r := r.(role := role);
      if role == ADMIN {
        r := r.(groups := OrWord(r.groups, 0x232));
      } else if role == POWER {
        r := r.(groups := OrWord(r.groups, 0x18));
      } else if role == GUEST {
        r := r.(groups := 0, gid := 65534);
      }
      assert r == WithRole(bare, role);
      r := HashPassword(r, CString(password));
      records := records + [r];
      ok := true;
    }

    /** auth_delete: the records behind the deleted one move up. */
    method DeleteUser(user: seq<byte>) returns (ok: bool)
      modifies this`records, this`current
      ensures records == DeleteStep(old(records), user)
      ensures ok == (var i := Position(old(records), CString(user)); i < |old(records)| && old(records)[i].uid != 0)
      ensures current == if ok && old(current) >= |records| then 0 else old(current)
    {
      hide CString, Position;
      var at := PositionOf(CString(user));
      if at == |records| || records[at].uid == 0 { return false; }
      records := MoveUp(records, at);
      if current >= |records| { current := 0; }
      ok := true;
    }

    /** auth_set_password. */
    method SetPasswordOf(user: seq<byte>, password: seq<byte>) returns (ok: bool)
      modifies this`records
      ensures records == PasswordStep(old(records), user, password)
      ensures ok == (Position(old(records), CString(user)) < |old(records)|)
    {
      hide CString, Position, WithPassword;
      var i := PositionOf(CString(user));
      if i == |records| { return false; }
      var r := HashPassword(records[i], CString(password));
      records := records[i := r];
      ok := true;
    }

    /** auth_check: derives the key again and compares all of it. */
    method CheckPassword(user: seq<byte>, password: seq<byte>) returns (ok: bool)
      requires AccountTable.Inv(records)
      ensures ok == AccountLaws.Checks(records, CString(user), CString(password))
    {
      hide CString, Position, Crypto.Block1, Crypto.ShortSalt;
      var i := PositionOf(CString(user));
      if i == |records| || records[i].locked { return false; }
      var hash, got := records[i].hash, new byte[32];
      assert Good(records[i]);
      var rounds := ROUNDS;
      Crypto.Pbkdf2(CString(password), records[i].salt, rounds, got);
      assert got[..] == got[..32];
      ok := true;
      for n := 0 to 32
        invariant ok == (got[..n] == hash[..n])
      {
        assert got[..n + 1] == got[..n] + [got[n]] && hash[..n + 1] == hash[..n] + [hash[n]];
        if got[n] != hash[n] { ok := false; }
      }
      assert hash[..32] == hash;
    }

    /** auth_set_role. */
    method SetRoleOf(user: seq<byte>, role: Word) returns (ok: bool)
      modifies this`records
      ensures records == RoleStep(old(records), user, role)
      ensures ok == (var i := Position(old(records), CString(user));
              i < |old(records)| && old(records)[i].uid != 0 && role != 0)
    {
      hide CString, Position;
      var i := PositionOf(CString(user));
      if i == |records| || records[i].uid == 0 || role == 0 { return false; }
      records := records[i := records[i].(role := role)];
      ok := true;
    }

    /** auth_set_groups. */
    method SetGroupsOf(user: seq<byte>, groups: Word) returns (ok: bool)
      modifies this`records
      ensures records == GroupsStep(old(records), user, groups)
      ensures ok == (var i := Position(old(records), CString(user)); i < |old(records)| && old(records)[i].uid != 0)
    {
      hide CString, Position, OrWord;
      var i := PositionOf(CString(user));
      if i == |records| || records[i].uid == 0 { return false; }
      records := records[i := records[i].(groups := OrWord(groups, 4))];
      ok := true;
    }

    /** The four numbers of an account line. */
    method ReadFields(d: Record, t: seq<byte>) returns (ok: bool, r: Record, rest: seq<byte>)
      ensures (ok, r, rest) == ParseFields(d, t)
    {
      hide Number, AfterNumber, SkipLine, Find;
      var v, t1 := ReadNumber(t);
      r := d.(uid := v % 0x1_0000);
      if !At(t1, COLON) { return false, r, t1; }
      var v2, t2 := ReadNumber(t1[1..]);
      r := r.(gid := v2 % 0x1_0000);
      if !At(t2, COLON) { return false, r, t2; }
      var v3, t3 := ReadNumber(t2[1..]);
      r := r.(role := v3);
      if !At(t3, COLON) { return false, r, t3; }
      var v4, t4 := ReadNumber(t3[1..]);
      r := r.(groups := v4);
      var n := IndexOf(t4, NEWLINE);
      SkipIs(t4);
      return true, r, if n < |t4| then t4[n + 1..] else [];
    }
  }

  /** One line of the accounts text. */
  lemma AccountsStep(t: seq<byte>, rs: seq<Record>)
    requires t != []
    ensures var e := NameEnd(t);
            var i := Position(rs, CString(Clip(t[..e], 15)));
            AccountText.LoadAccounts(t, rs) ==
            if e == |t| || t[e] != COLON then (false, rs)
            else if i == |rs| then AccountText.LoadAccounts(SkipLine(t[e + 1..]), rs)
            else
              var (ok, r, rest) := ParseFields(rs[i], t[e + 1..]);
              if ok then AccountText.LoadAccounts(rest, rs[i := r]) else (false, rs[i := r])
  {
    hide NameEnd, Position, CString, ParseFields, SkipLine;
  }

  lemma NoAccounts(rs: seq<Record>)
    ensures AccountText.LoadAccounts([], rs) == (true, rs)
  {
  }

  lemma SkipIs(t: seq<byte>)
    ensures SkipLine(t) == if Find(t, NEWLINE) < |t| then t[Find(t, NEWLINE) + 1..] else []
  {
  }
}
