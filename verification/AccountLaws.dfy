/**
 What the operations on the account table mean to someone who asks it for users: which ids and groups a user has,
 whose password checks out, and what no operation can do to root.
 */
module AccountLaws {
  import opened Bytes
  import opened AccountText
  import opened AccountTable
  import Crypto

  function Ascii(s: string): (b: seq<byte>)
    requires forall i :: 0 <= i < |s| ==> s[i] < 128 as char
    ensures |b| == |s|
  {
    seq(|s|, i requires 0 <= i < |s| => s[i] as int)
  }

  /** The byte strings of the model, spelled out. */
  lemma Spellings()
    ensures Prefix() == Ascii("$pbkdf2-sha256$10000$") && SaltPrefix() == Ascii("os64-user-")
    ensures RootName() == Ascii("root") && NobodyName() == Ascii("nobody")
    ensures [COLON, NEWLINE, DOLLAR, HASH, BANG] == Ascii(":\n$#!")
  {
  }

  /** The record the table has under a name. */
  function Named(rs: seq<Record>, user: seq<byte>): Option<Record> {
    var i := Position(rs, user);
    if i < |rs| then Some(rs[i]) else None
  }

  /** auth_check: the user is there, not locked, and the password derives the stored key. */
  predicate Checks(rs: seq<Record>, user: seq<byte>, password: seq<byte>) {
    && Named(rs, user).Some?
    && var r := Named(rs, user).value;
    && !r.locked && Crypto.Block1(password, Crypto.ShortSalt(r.salt), 9999) == r.hash
  }

  // ---------------------------------------------------------- names and positions

  lemma {:induction false} PositionAppend(rs: seq<Record>, r: Record, user: seq<byte>)
    ensures Position(rs + [r], user)
            == if Position(rs, user) < |rs| || r.user == user then Position(rs, user) else |rs| + 1
  {
    if rs == [] {
      assert rs + [r] == [r] && [r][1..] == [];
    } else if rs[0].user != user {
      assert (rs + [r])[1..] == rs[1..] + [r];
      PositionAppend(rs[1..], r, user);
    }
  }

  /** A record that keeps its name moves no one. */
  lemma {:induction false} PositionSame(rs: seq<Record>, i: nat, r: Record, user: seq<byte>)
    requires i < |rs| && r.user == rs[i].user
    ensures Position(rs[i := r], user) == Position(rs, user)
  {
    if i > 0 && rs[0].user != user {
      PositionSame(rs[1..], i - 1, r, user);
      assert rs[i := r][1..] == rs[1..][i - 1 := r];
    } else if i == 0 {
      assert rs[i := r][1..] == rs[1..];
    }
  }

  lemma {:induction false} PositionDrop(rs: seq<Record>, i: nat, user: seq<byte>)
    requires i < |rs| && rs[i].user != user
    ensures var p := Position(rs, user);
            Position(rs[..i] + rs[i + 1..], user) == if p < i then p else p - 1
  {
    var out := rs[..i] + rs[i + 1..];
    if i == 0 {
      assert out == rs[1..];
    } else {
      assert out[0] == rs[0] && out[1..] == rs[1..][..i - 1] + rs[1..][i..];
      if rs[0].user != user { PositionDrop(rs[1..], i - 1, user); }
    }
  }

  /** Changing a record in place is seen under its name and no other. */
  lemma UpdateNamed(rs: seq<Record>, user: seq<byte>, r: Record, other: seq<byte>)
    requires Position(rs, user) < |rs| && r.user == user
    ensures Named(rs[Position(rs, user) := r], other) == if other == user then Some(r) else Named(rs, other)
  {
    PositionSame(rs, Position(rs, user), r, other);
  }

  // -------------------------------------------------------- what each operation does

  /** Adding: the new user is found under the clipped name unless that name was taken; no one else changes. */
  lemma AddNamed(rs: seq<Record>, user: seq<byte>, password: seq<byte>, role: Word, other: seq<byte>)
    ensures var out, name := AddStep(rs, user, password, role), Clip(CString(user), 15);
            if |rs| >= 16 || Named(rs, CString(user)).Some? || role > 4 then out == rs
            else && |out| == |rs| + 1 && out[|rs|].user == name
                 && Named(out, other) == if other == name && Named(rs, name).None? then Some(out[|rs|])
                                         else Named(rs, other)
  {
    hide WithDefaults, WithPassword, WithRole, Position, CString, Clip;
    var name := Clip(CString(user), 15);
    var r := WithPassword(WithRole(NewRecord(user, |rs|), role), CString(password));
    NewName(user, |rs|, role, CString(password));
    PositionAppend(rs, r, other);
  }

  lemma NewName(user: seq<byte>, index: nat, role: Word, password: seq<byte>)
    ensures WithPassword(WithRole(NewRecord(user, index), role), password).user == Clip(CString(user), 15)
  {
    hide CString, Clip, OrWord, Crypto.Block1, Crypto.ShortSalt, SaltPrefix;
  }

  /** The ids, role and groups that a new user of this name should have. */
  predicate NewIds(r: Record, name: seq<byte>, role: nat, index: nat) {
    && r.role == role && (r.uid == 0 <==> name == Ascii("root"))
    && (name != Ascii("root") && name != Ascii("nobody") ==>
          && r.uid == 1000 + index && r.gid == (if role == 4 then 65534 else 100)
          && r.groups == (if role == 1 then 0x236 else if role == 2 then 0x1c else if role == 4 then 0 else 4))
  }

  lemma AddedIds(rs: seq<Record>, user: seq<byte>, password: seq<byte>, role: Word)
    requires |rs| < 16 && Named(rs, CString(user)).None? && role <= 4
    ensures |AddStep(rs, user, password, role)| == |rs| + 1
    ensures NewIds(AddStep(rs, user, password, role)[|rs|], Clip(CString(user), 15), role, |rs|)
  {
    hide CString, Clip, Position, Crypto.Block1, Crypto.ShortSalt, SaltPrefix, OrWord;
    Spellings();
    Ors();
  }

  lemma Ors()
    ensures OrWord(4, 0x232) == 0x236 && OrWord(4, 0x18) == 0x1c
  {
    hide Or, Power2;
    OrSwap(4, 0x232, 32);
    OrSwap(4, 0x18, 32);
    OrBit(0x232);
    OrBit(0x18);
  }

  lemma {:induction false} OrSwap(a: nat, b: nat, k: nat)
    ensures Or(a, b, k) == Or(b, a, k)
  {
    if k > 0 { OrSwap(a / 2, b / 2, k - 1); }
  }

  /** Ids, role and groups that follow from a name: root's, nobody's, and everyone else's. */
  predicate IdsByName(r: Record, index: nat) {
    if r.user == Ascii("root") then
      r.uid == 0 && r.gid == 0 && r.role == 0 && r.groups == 1 + 2 + 32 + 256 + 512
    else if r.user == Ascii("nobody") then
      r.uid == 65534 && r.gid == 65534 && r.role == 4 && r.groups == 0
    else
      r.uid == 1000 + index && r.gid == 100 && r.role == 3 && r.groups == 4
  }

  /** A line of the shadow text gives these; the id 0 goes to root alone. */
  lemma ParsedIds(line: seq<byte>, index: nat)
    requires ParseLine(line, index).Some?
    ensures IdsByName(ParseLine(line, index).value, index)
    ensures ParseLine(line, index).value.uid == 0 <==> ParseLine(line, index).value.user == Ascii("root")
  {
    hide Find, UnHex, Prefix, CString, Clip;
    Spellings();
  }

  /** The hexadecimal digits, in either case. */
  lemma HexIff(c: byte, v: nat)
    requires v < 16
    ensures HexValue(c) == v <==>
            if v < 10 then c == '0' as int + v else c == 'a' as int + (v - 10) || c == 'A' as int + (v - 10)
  {
  }

  /** Deleting leaves everyone else; a user with id 0 is not deleted. */
  lemma DeleteOthers(rs: seq<Record>, user: seq<byte>, other: seq<byte>)
    requires other != CString(user)
    ensures Named(DeleteStep(rs, user), other) == Named(rs, other)
    ensures Named(rs, CString(user)).None? || Named(rs, CString(user)).value.uid == 0 ==> DeleteStep(rs, user) == rs
  {
    hide CString, Position;
    var i := Position(rs, CString(user));
    if i < |rs| && rs[i].uid != 0 { PositionDrop(rs, i, other); }
  }

  /** Any other user is gone, names being distinct. */
  lemma DeleteGone(rs: seq<Record>, user: seq<byte>)
    requires DistinctUsers(rs) && Named(rs, CString(user)).Some? && Named(rs, CString(user)).value.uid != 0
    ensures Named(DeleteStep(rs, user), CString(user)).None? && |DeleteStep(rs, user)| == |rs| - 1
  {
    hide CString, Position;
    GoneFrom(rs, Position(rs, CString(user)), CString(user));
  }

  lemma GoneFrom(rs: seq<Record>, i: nat, name: seq<byte>)
    requires i < |rs| && rs[i].user == name && DistinctUsers(rs)
    ensures Position(rs[..i] + rs[i + 1..], name) == |rs| - 1
  {
    var out := rs[..i] + rs[i + 1..];
    assert forall p :: 0 <= p < |out| ==> out[p] == rs[if p < i then p else p + 1];
  }

  /** Only salt, hash and lock differ; the salt is made from the name. */
  predicate Renewed(r: Record, r': Record) {
    && r' == r.(salt := r'.salt, hash := r'.hash, locked := false)
    && r'.salt == Ascii("os64-user-") + if |r.user| > 21 then r.user[..21] else r.user
  }

  /** A new password checks out at once, and nothing else of the table changes. */
  lemma PasswordSet(rs: seq<Record>, user: seq<byte>, password: seq<byte>, other: seq<byte>)
    requires Named(rs, CString(user)).Some?
    ensures var out := PasswordStep(rs, user, password);
            && Checks(out, CString(user), CString(password)) && Named(out, CString(user)).Some?
            && (other != CString(user) ==> Named(out, other) == Named(rs, other))
            && Renewed(Named(rs, CString(user)).value, Named(out, CString(user)).value)
  {
    hide CString, Position, Crypto.Block1, Crypto.ShortSalt, SaltPrefix, Ascii;
    Spellings();
    var i := Position(rs, CString(user));
    var r := WithPassword(rs[i], CString(password));
    UpdateNamed(rs, CString(user), r, other);
    UpdateNamed(rs, CString(user), r, CString(user));
  }

  /** The password a user is added with checks out. */
  lemma PasswordAdded(rs: seq<Record>, user: seq<byte>, password: seq<byte>, role: Word)
    requires |rs| < 16 && role <= 4 && Named(rs, CString(user)).None? && Named(rs, Clip(CString(user), 15)).None?
    ensures Checks(AddStep(rs, user, password, role), Clip(CString(user), 15), CString(password))
  {
    hide CString, Clip, Position, Crypto.Block1, Crypto.ShortSalt, SaltPrefix, WithRole, WithDefaults;
    AddNamed(rs, user, password, role, Clip(CString(user), 15));
  }

  /** A new role is the user's, unless it is root's or the user's id is 0. */
  lemma RoleSet(rs: seq<Record>, user: seq<byte>, role: Word, other: seq<byte>)
    ensures var was := Named(rs, CString(user));
            Named(RoleStep(rs, user, role), other)
            == if other == CString(user) && was.Some? && was.value.uid != 0 && role != 0
               then Some(was.value.(role := role)) else Named(rs, other)
  {
    hide CString, Position;
    var i := Position(rs, CString(user));
    if i < |rs| { UpdateNamed(rs, CString(user), rs[i].(role := role), other); }
  }

  /** New groups are the user's, with `users` (bit 2) added, unless the user's id is 0. */
  lemma GroupsSet(rs: seq<Record>, user: seq<byte>, groups: Word, other: seq<byte>)
    ensures var was, all := Named(rs, CString(user)), if groups / 4 % 2 == 1 then groups else groups + 4;
            Named(GroupsStep(rs, user, groups), other)
            == if other == CString(user) && was.Some? && was.value.uid != 0
               then Some(was.value.(groups := all)) else Named(rs, other)
  {
    hide CString, Position, OrWord;
    var i := Position(rs, CString(user));
    OrBit(groups);
    if i < |rs| { UpdateNamed(rs, CString(user), rs[i].(groups := OrWord(groups, 4)), other); }
  }

  lemma OrBit(g: Word)
    ensures OrWord(g, 4) == if g / 4 % 2 == 1 then g else g + 4
  {
    hide Or, Power2;
    WordBits();
    OrHalf(g, 4, 32);
    OrHalf(g / 2, 2, 31);
    OrHalf(g / 2 / 2, 1, 30);
    PowerHalf(g, 32);
    PowerHalf(g / 2, 31);
    PowerHalf(g / 2 / 2, 30);
    OrZero(g / 2 / 2 / 2, 29);
    assert g / 2 / 2 == g / 4;
  }

  lemma OrHalf(a: nat, b: nat, k: nat)
    requires k > 0
    ensures Or(a, b, k) == (if a % 2 == 1 || b % 2 == 1 then 1 else 0) + 2 * Or(a / 2, b / 2, k - 1)
  {
  }

  lemma PowerHalf(a: nat, k: nat)
    requires k > 0 && a < Power2(k)
    ensures a / 2 < Power2(k - 1)
  {
  }

  lemma {:induction false} OrZero(a: nat, k: nat)
    requires a < Power2(k)
    ensures Or(a, 0, k) == a
  {
    if k > 0 { OrZero(a / 2, k - 1); }
  }

  // ------------------------------------------------------------ lines of the texts

  /** The first line of a shadow text: blank and comment lines are skipped, a bad one ends the loading. */
  lemma ShadowFirst(line: seq<byte>, rest: seq<byte>, rs: seq<Record>)
    requires 10 !in line
    ensures Load(line + [10] + rest, rs)
            == if line == [] || line[0] == 35 then Load(rest, rs)
               else match ParseLine(line, |rs|) {
                   case None => (false, rs)
                   case Some(r) => Load(rest, rs + [r])
                 }
  {
    hide Find, ParseLine;
    var text := line + [10] + rest;
    FindAt(line, NEWLINE, rest);
    assert text[..|line|] == line && text[|line| + 1..] == rest;
  }

  /** The line of a user the table does not have is skipped, whatever follows the name. */
  lemma UnknownSkipped(user: seq<byte>, line: seq<byte>, rest: seq<byte>, rs: seq<Record>)
    requires |user| <= 15 && 0 !in user && 58 !in user && 10 !in user && 10 !in line && Named(rs, user).None?
    ensures LoadAccounts(user + [58] + (line + [10] + rest), rs) == LoadAccounts(rest, rs)
  {
    hide NameEnd, Position, CString, ParseFields, Find, SkipLine;
    var tail := line + [10] + rest;
    var t := user + [58] + tail;
    NameEndAt(user, tail);
    assert t[..|user|] == user && t[|user| + 1..] == tail;
    NoZero(user);
    TailSkipped(line, rest);
  }

  lemma TailSkipped(line: seq<byte>, rest: seq<byte>)
    requires 10 !in line
    ensures SkipLine(line + [10] + rest) == rest
  {
    hide Find;
    FindAt(line, NEWLINE, rest);
    assert (line + [10] + rest)[|line| + 1..] == rest;
  }

  // --------------------------------------------------------------------- root

  /** Only root has the id 0. */
  predicate RootOnly(rs: seq<Record>) {
    |rs| <= 16 && forall i :: 0 <= i < |rs| && rs[i].uid == 0 ==> rs[i].user == Ascii("root")
  }

  lemma {:induction false} LoadRootOnly(text: seq<byte>, rs: seq<Record>)
    requires RootOnly(rs)
    ensures RootOnly(Load(text, rs).1)
    decreases |text|
  {
    hide Find, ParseLine, Ascii;
    if text != [] {
      var e := Find(text, NEWLINE);
      var line, rest := text[..e], if e < |text| then text[e + 1..] else [];
      if line == [] || line[0] == HASH {
        LoadRootOnly(rest, rs);
      } else if ParseLine(line, |rs|).Some? {
        ParsedGood(line, |rs|);
        ParsedIds(line, |rs|);
        LoadRootOnly(rest, rs + [ParseLine(line, |rs|).value]);
      }
    }
  }

  lemma AddRootOnly(rs: seq<Record>, user: seq<byte>, password: seq<byte>, role: Word)
    requires RootOnly(rs)
    ensures RootOnly(AddStep(rs, user, password, role))
  {
    hide AddStep, Ascii, CString, Clip, Position;
    AddNamed(rs, user, password, role, []);
    if |rs| < 16 && Named(rs, CString(user)).None? && role <= 4 {
      AddedIds(rs, user, password, role);
      AddKeepsOthers(rs, user, password, role);
    }
  }

  lemma AddKeepsOthers(rs: seq<Record>, user: seq<byte>, password: seq<byte>, role: Word)
    ensures rs <= AddStep(rs, user, password, role)
  {
    hide CString, Position, WithPassword, WithRole, WithDefaults;
  }

  lemma StepRootOnly(rs: seq<Record>, op: Op)
    requires RootOnly(rs) && !op.LoadIds?
    ensures RootOnly(Step(rs, op))
  {
    hide Load, LoadAccounts, AddStep, CString, OrWord, Position, Ascii, Crypto.Block1, Crypto.ShortSalt, SaltPrefix;
    match op
    case LoadShadow(text) => LoadRootOnly(text, []);
    case Add(user, password, role) => AddRootOnly(rs, user, password, role);
    case Delete(user) =>
    case SetPassword(user, password) =>
    case SetRole(user, role) =>
    case SetGroups(user, groups) =>
  }

  /** Whatever is loaded, added, deleted or changed, no one but root has the id 0, unless a text of ids says so. */
  lemma {:induction false} RunRootOnly(rs: seq<Record>, ops: seq<Op>)
    requires RootOnly(rs) && forall i :: 0 <= i < |ops| ==> !ops[i].LoadIds?
    ensures RootOnly(Run(rs, ops))
    decreases ops
  {
    hide RootOnly, Step;
    if ops != [] {
      StepRootOnly(rs, ops[0]);
      RunRootOnly(Step(rs, ops[0]), ops[1..]);
    }
  }

  /** Root is there with id 0, and with this group id, role and groups. */
  predicate RootIs(rs: seq<Record>, gid: nat, role: nat, groups: nat) {
    && Named(rs, Ascii("root")).Some?
    && var r := Named(rs, Ascii("root")).value; r.uid == 0 && r.gid == gid && r.role == role && r.groups == groups
  }

  lemma StepKeepsRoot(rs: seq<Record>, op: Op, gid: nat, role: nat, groups: nat)
    requires RootIs(rs, gid, role, groups) && !op.LoadIds? && !op.LoadShadow?
    ensures RootIs(Step(rs, op), gid, role, groups)
  {
    hide AddStep, DeleteStep, PasswordStep, RoleStep, GroupsStep, Position, CString, Clip, Ascii, Named, Checks;
    var root := Ascii("root");
    match op
    case Add(user, password, role') => AddNamed(rs, user, password, role', root);
    case Delete(user) => DeleteRoot(rs, user);
    case SetPassword(user, password) =>
      if Named(rs, CString(user)).Some? {
        PasswordSet(rs, user, password, root);
      } else {
        NoSuchUser(rs, user, password);
      }
    case SetRole(user, role') => RoleSet(rs, user, role', root);
    case SetGroups(user, groups') => GroupsSet(rs, user, groups', root);
  }

  lemma DeleteRoot(rs: seq<Record>, user: seq<byte>)
    requires Named(rs, Ascii("root")).Some? && Named(rs, Ascii("root")).value.uid == 0
    ensures Named(DeleteStep(rs, user), Ascii("root")) == Named(rs, Ascii("root"))
  {
    hide Position, CString, Ascii;
    if CString(user) != Ascii("root") { DeleteOthers(rs, user, Ascii("root")); }
  }

  lemma NoSuchUser(rs: seq<Record>, user: seq<byte>, password: seq<byte>)
    requires Named(rs, CString(user)).None?
    ensures PasswordStep(rs, user, password) == rs
  {
  }

  /** No run of additions, deletions and changes removes root or touches its ids, role or groups. */
  lemma {:induction false} RunKeepsRoot(rs: seq<Record>, ops: seq<Op>, gid: nat, role: nat, groups: nat)
    requires RootIs(rs, gid, role, groups)
    requires forall i :: 0 <= i < |ops| ==> !ops[i].LoadIds? && !ops[i].LoadShadow?
    ensures RootIs(Run(rs, ops), gid, role, groups)
    decreases ops
  {
    hide RootIs, Step;
    if ops != [] {
      StepKeepsRoot(rs, ops[0], gid, role, groups);
      RunKeepsRoot(Step(rs, ops[0]), ops[1..], gid, role, groups);
    }
  }
}
