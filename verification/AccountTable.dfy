/**
 Every operation of kernel/security/auth.c that changes the account table, as a step on values, and what
 holds of the table after any run of them.
 */
module AccountTable {
  import opened Bytes
  import opened AccountText
  import Crypto

  type Word = n: nat | n < WORD

  const ADMIN: nat := 1
  const POWER: nat := 2
  const GUEST: nat := 4
  const ROUNDS: nat := 10000

  function Power2(k: nat): nat { if k == 0 then 1 else 2 * Power2(k - 1) }

  /** The low `k` bits of `a` or `b`, bit by bit. */
  function Or(a: nat, b: nat, k: nat): (r: nat)
    ensures r < Power2(k)
  {
    if k == 0 then 0 else (if a % 2 == 1 || b % 2 == 1 then 1 else 0) + 2 * Or(a / 2, b / 2, k - 1)
  }

  lemma WordBits()
    ensures Power2(32) == WORD
  {
    assert Power2(8) == 256;
    assert Power2(16) == 0x1_0000;
    assert Power2(24) == 0x100_0000;
  }

  /** Bits set in a 32-bit group word. */
  function OrWord(a: Word, b: Word): (r: Word) {
    WordBits();
    Or(a, b, 32)
  }

  /** "os64-user-". */
  function SaltPrefix(): (p: seq<byte>)
    ensures |p| == 10 && 0 !in p
  {
    [111, 115, 54, 52, 45, 117, 115, 101, 114, 45]
  }

  /** hash_password: a salt made from the name, the derived key, and no longer locked. */
  function WithPassword(r: Record, password: seq<byte>): Record {
    var salt := SaltPrefix() + Clip(r.user, 21);
    r.(salt := salt, hash := Crypto.Block1(password, Crypto.ShortSalt(salt), ROUNDS - 1), locked := false)
  }

  /** The groups and the group id that a role brings along. */
  function WithRole(r: Record, role: nat): Record
    requires r.groups < WORD
  {
    if role == ADMIN then r.(role := role, groups := OrWord(r.groups, 0x232))
    else if role == POWER then r.(role := role, groups := OrWord(r.groups, 0x18))
    else if role == GUEST then r.(role := role, groups := 0, gid := 65534)
    else r.(role := role)
  }

  datatype Op =
    | LoadShadow(text: seq<byte>)
    | LoadIds(text: seq<byte>)
    | Add(user: seq<byte>, password: seq<byte>, role: Word)
    | Delete(user: seq<byte>)
    | SetPassword(user: seq<byte>, password: seq<byte>)
    | SetRole(user: seq<byte>, role: Word)
    | SetGroups(user: seq<byte>, groups: Word)

  /** A new user's record, before role and password. */
  function NewRecord(user: seq<byte>, index: nat): (r: Record)
    ensures r.groups < WORD
  {
    WithDefaults(Bare(Clip(CString(user), 15)), index)
  }

  /** auth_add_role. */
  function AddStep(rs: seq<Record>, user: seq<byte>, password: seq<byte>, role: Word): seq<Record> {
    if |rs| >= MAX_USERS || Position(rs, CString(user)) < |rs| || role > GUEST then rs
    else rs + [WithPassword(WithRole(NewRecord(user, |rs|), role), CString(password))]
  }

  /** auth_delete: not a user with id 0. */
  function DeleteStep(rs: seq<Record>, user: seq<byte>): seq<Record> {
    var i := Position(rs, CString(user));
    if i == |rs| || rs[i].uid == 0 then rs else rs[..i] + rs[i + 1..]
  }

  /** auth_set_password. */
  function PasswordStep(rs: seq<Record>, user: seq<byte>, password: seq<byte>): seq<Record> {
    var i := Position(rs, CString(user));
    if i == |rs| then rs else rs[i := WithPassword(rs[i], CString(password))]
  }

  /** auth_set_role: neither for a user with id 0 nor to root. */
  function RoleStep(rs: seq<Record>, user: seq<byte>, role: Word): seq<Record> {
    var i := Position(rs, CString(user));
    if i == |rs| || rs[i].uid == 0 || role == 0 then rs else rs[i := rs[i].(role := role)]
  }

  /** auth_set_groups: `users` is always among them. */
  function GroupsStep(rs: seq<Record>, user: seq<byte>, groups: Word): seq<Record> {
    var i := Position(rs, CString(user));
    if i == |rs| || rs[i].uid == 0 then rs else rs[i := rs[i].(groups := OrWord(groups, 4))]
  }

  function Step(rs: seq<Record>, op: Op): seq<Record> {
    match op
    case LoadShadow(text) => Load(text, []).1
    case LoadIds(text) => LoadAccounts(text, rs).1
    case Add(user, password, role) => AddStep(rs, user, password, role)
    case Delete(user) => DeleteStep(rs, user)
    case SetPassword(user, password) => PasswordStep(rs, user, password)
    case SetRole(user, role) => RoleStep(rs, user, role)
    case SetGroups(user, groups) => GroupsStep(rs, user, groups)
  }

  function Run(rs: seq<Record>, ops: seq<Op>): seq<Record>
    decreases ops
  {
    if ops == [] then rs else Run(Step(rs, ops[0]), ops[1..])
  }

  // --------------------------------------------------- what every step keeps

  predicate Good(r: Record) { Sound(r) && Sealed(r) }

  /** What every table holds: at most sixteen sound records, the locked ones without secrets. */
  predicate Inv(rs: seq<Record>) { |rs| <= MAX_USERS && forall i :: 0 <= i < |rs| ==> Good(rs[i]) }

  lemma NoZeros(b: seq<byte>)
    ensures 0 !in CString(b) && |CString(b)| <= |b|
  {
    hide Find;
  }

  lemma PasswordGood(r: Record, password: seq<byte>)
    requires Sound(r)
    ensures Good(WithPassword(r, password))
  {
    hide Crypto.Block1, Crypto.ShortSalt, SaltPrefix;
  }

  lemma RoleSound(r: Record, role: Word)
    requires Sound(r)
    ensures Sound(WithRole(r, role))
  {
    hide OrWord;
  }

  lemma DefaultsGood(user: seq<byte>, index: nat)
    requires |user| <= 15 && 0 !in user
    ensures Good(WithDefaults(Bare(user), index))
  {
  }

  lemma ClipSound(b: seq<byte>)
    ensures |Clip(b, 15)| <= 15 && (0 !in b ==> 0 !in Clip(b, 15))
  {
  }

  lemma AddKeeps(rs: seq<Record>, user: seq<byte>, password: seq<byte>, role: Word)
    requires Inv(rs)
    ensures Inv(AddStep(rs, user, password, role))
  {
    hide CString, Clip, WithDefaults, WithRole, WithPassword, Position, Good, Sound;
    var name := Clip(CString(user), 15);
    NoZeros(user);
    ClipSound(CString(user));
    DefaultsGood(name, |rs|);
    GoodIsSound(WithDefaults(Bare(name), |rs|));
    RoleSound(WithDefaults(Bare(name), |rs|), role);
    PasswordGood(WithRole(WithDefaults(Bare(name), |rs|), role), CString(password));
  }

  lemma GoodIsSound(r: Record)
    requires Good(r)
    ensures Sound(r) && r.groups < WORD
  {
  }

  lemma ParsedGood(line: seq<byte>, index: nat)
    ensures ParseLine(line, index).Some? ==> Good(ParseLine(line, index).value) && index < MAX_USERS
  {
    hide Find, UnHex, Prefix, WithDefaults;
    var c := Find(line, COLON);
    if ParseLine(line, index).Some? {
      var name := CString(Clip(line[..c], 15));
      NoZeros(Clip(line[..c], 15));
      ClipSound(line[..c]);
      DefaultsGood(name, index);
      BareDefaults(name, index);
      SecretGood(WithDefaults(Bare(name), index), line[c + 1..]);
    }
  }

  lemma BareDefaults(user: seq<byte>, index: nat)
    ensures var r := WithDefaults(Bare(user), index); r.salt == [] && r.hash == NoHash() && !r.locked
  {
  }

  lemma {:induction false} UnHexSize(t: seq<byte>, n: nat)
    ensures UnHex(t, n).Some? ==> |UnHex(t, n).value| == n
    decreases n
  {
    hide HexValue;
    if n > 0 && |t| >= 2 { UnHexSize(t[2..], n - 1); }
  }

  lemma SecretGood(r: Record, t: seq<byte>)
    requires Sound(r) && r.salt == [] && r.hash == NoHash() && !r.locked
    ensures ParseSecret(r, t).Some? ==> Good(ParseSecret(r, t).value)
  {
    hide Find, UnHex, Prefix, CString;
    if ParseSecret(r, t).Some? && !(t != [] && t[0] == BANG) {
      var s := t[|Prefix()|..];
      var n := Find(s, DOLLAR);
      NoZeros(s[..n]);
      UnHexSize(s[n + 1..], 32);
    }
  }

  lemma {:induction false} LoadKeeps(text: seq<byte>, rs: seq<Record>)
    requires Inv(rs)
    ensures Inv(Load(text, rs).1)
    decreases |text|
  {
    hide Find, ParseLine, Good;
    if text != [] {
      var e := Find(text, NEWLINE);
      var line, rest := text[..e], if e < |text| then text[e + 1..] else [];
      ParsedGood(line, |rs|);
      if line == [] || line[0] == HASH {
        LoadKeeps(rest, rs);
      } else if ParseLine(line, |rs|).Some? {
        LoadKeeps(rest, rs + [ParseLine(line, |rs|).value]);
      }
    }
  }

  lemma FieldsGood(r: Record, t: seq<byte>)
    requires Good(r)
    ensures Good(ParseFields(r, t).1)
  {
    hide Number, AfterNumber, SkipLine, NoHash;
    var t1 := AfterNumber(t);
    NumberFits(t);
    if At(t1, COLON) {
      NumberFits(t1[1..]);
      var t2 := AfterNumber(t1[1..]);
      if At(t2, COLON) {
        NumberFits(t2[1..]);
        var t3 := AfterNumber(t2[1..]);
        if At(t3, COLON) { NumberFits(t3[1..]); }
      }
    }
  }

  lemma NumberFits(t: seq<byte>)
    ensures Number(t) < WORD
  {
  }

  lemma {:induction false} LoadIdsKeeps(t: seq<byte>, rs: seq<Record>)
    requires Inv(rs)
    ensures Inv(LoadAccounts(t, rs).1)
    decreases |t|
  {
    hide NameEnd, Position, CString, Clip, ParseFields, SkipLine, Good;
    if t != [] {
      var e := NameEnd(t);
      if e < |t| && t[e] == COLON {
        var i := Position(rs, CString(Clip(t[..e], 15)));
        if i == |rs| {
          SkipShorter(t[e + 1..]);
          LoadIdsKeeps(SkipLine(t[e + 1..]), rs);
        } else {
          FieldsGood(rs[i], t[e + 1..]);
          RestShorter(rs[i], t[e + 1..]);
          var p := ParseFields(rs[i], t[e + 1..]);
          if p.0 { LoadIdsKeeps(p.2, rs[i := p.1]); }
        }
      }
    }
  }

  lemma SkipShorter(t: seq<byte>)
    ensures |SkipLine(t)| <= |t|
  {
    hide Find;
  }

  lemma StepKeeps(rs: seq<Record>, op: Op)
    requires Inv(rs)
    ensures Inv(Step(rs, op))
  {
    hide Load, LoadAccounts, AddStep, CString, WithPassword, OrWord, Position;
    match op
    case LoadShadow(text) => LoadKeeps(text, []);
    case LoadIds(text) => LoadIdsKeeps(text, rs);
    case Add(user, password, role) => AddKeeps(rs, user, password, role);
    case Delete(user) =>
    case SetPassword(user, password) =>
      var i := Position(rs, CString(user));
      if i < |rs| { PasswordGood(rs[i], CString(password)); }
    case SetRole(user, role) =>
    case SetGroups(user, groups) =>
  }

  /** What the table starts empty with, it holds after every run. */
  lemma {:induction false} RunKeeps(rs: seq<Record>, ops: seq<Op>)
    requires Inv(rs)
    ensures Inv(Run(rs, ops))
    decreases ops
  {
    hide Inv, Step;
    if ops != [] {
      StepKeeps(rs, ops[0]);
      RunKeeps(Step(rs, ops[0]), ops[1..]);
    }
  }

  /**
   After any run of operations, exporting both texts and loading them again rebuilds the very same table,
   provided it has users, no two of one name, and no separator inside a name or a salt; and the texts
   always fit in 4096 bytes.
   */
  lemma EveryTableBack(ops: seq<Op>)
    ensures var rs := Run([], ops);
            && |ShadowText(rs)| <= 4096 && |AccountsText(rs)| <= 4096
            && (rs != [] && DistinctUsers(rs) && (forall i :: 0 <= i < |rs| ==> Separable(rs[i])) ==>
                  LoadBoth(ShadowText(rs), AccountsText(rs)) == (true, rs))
  {
    hide Run, LoadBoth, ShadowText, AccountsText, Sound, Sealed, Separable, DistinctUsers;
    RunKeeps([], ops);
    var rs := Run([], ops);
    TextsFit(rs);
    if rs != [] && DistinctUsers(rs) && forall i :: 0 <= i < |rs| ==> Separable(rs[i]) { TableBackIff(rs); }
  }
}
