/** The lookups that work on the client's buffers and lists: `rosters_find_user` with its
    in-place cut, name resolution, and the completion of JIDs. */
module RosterLookup {
  import opened Text
  import opened Roster
  import opened RosterContacts
  import opened RosterNames
  import opened RosterObjects

  // ----- rosters_find_user on a character buffer

  const NUL: char := '\0'

  /** The C string that starts at the beginning of the buffer. */
  function CString(buf: seq<char>): string {
    match IndexOf(buf, NUL)
    case None => buf
    case Some(i) => buf[..i]
  }

  lemma IndexOfFirst(s: string, c: char, k: nat)
    requires k < |s| && s[k] == c && c !in s[..k]
    ensures IndexOf(s, c) == Some(k)
  {
    var i := IndexOf(s, c).value;
    assert forall j | 0 <= j < k :: s[..k][j] == s[j];
    assert forall j | 0 <= j < i :: s[..i][j] == s[j];
    assert i == k;
  }

  /** Overwriting the first '/' with NUL leaves the bare JID in front of it and the
      resource behind it. */
  lemma CutSplits(buf: seq<char>, p: nat)
    requires NUL in buf && IndexOf(CString(buf), '/') == Some(p)
    ensures CString(buf[p := NUL]) == Strip(CString(buf))
    ensures NUL in buf[p + 1..] && Extract(CString(buf)) == Some(CString(buf[p + 1..]))
  {
    var jid := CString(buf);
    var z := IndexOf(buf, NUL).value;
    assert forall k | 0 <= k < z :: buf[..z][k] == buf[k] && buf[k] != NUL;
    IndexOfFirst(buf[p := NUL], NUL, p);
    assert buf[p := NUL][..p] == jid[..p];
    var rest := buf[p + 1..];
    assert rest[z - p - 1] == NUL;
    assert rest[..z - p - 1] == jid[p + 1..];
    IndexOfFirst(rest, NUL, z - p - 1);
  }

  /** The user with this bare JID and, if asked for, one of its resources. */
  method FindUserAndResource(groups: seq<GroupRec>, bare: string, res: Option<string>)
    returns (group: GroupRec?, user: UserRec?, resource: ResourceRec?, ghost at: Option<(nat, nat)>)
    ensures at == FindUser(old(GroupViews(groups)), bare)
    ensures group == if at.Some? then groups[at.value.0] else null
    ensures user == if at.Some? then groups[at.value.0].users[at.value.1] else null
    ensures user == null ==> resource == null
    ensures user != null ==>
              match FindResource(old(ResourceViews(user.resources)), res)
              case None => resource == null
              case Some(k) => resource == user.resources[k]
  {
    group, user, at := FindUserRec(groups, bare);
    RosterKept(groups);
    resource := null;
    if user != null && res.Some? {
      ghost var k;
      resource, k := FindResourceRec(user.resources, res);
      ResourcesKept(user.resources);
    }
  }

  /** `rosters_find_user`: the buffer is cut at its first '/' for the search and
      restored, so the caller finds it as it was. */
  method FindUserInBuffer(groups: seq<GroupRec>, buf: array<char>)
    returns (group: GroupRec?, user: UserRec?, resource: ResourceRec?, ghost at: Option<(nat, nat)>)
    requires NUL in buf[..]
    modifies buf
    ensures buf[..] == old(buf[..])
    ensures at == FindUser(old(GroupViews(groups)), Strip(CString(buf[..])))
    ensures group == if at.Some? then groups[at.value.0] else null
    ensures user == if at.Some? then groups[at.value.0].users[at.value.1] else null
    ensures user == null ==> resource == null
    ensures user != null ==>
              match FindResource(old(ResourceViews(user.resources)), Extract(CString(buf[..])))
              case None => resource == null
              case Some(k) => resource == user.resources[k]
  {
    ghost var before := buf[..];
    var pos := IndexOf(CString(buf[..]), '/');
    if pos.None? {
      group, user, resource, at := FindUserAndResource(groups, CString(buf[..]), None);
    } else {
      CutSplits(before, pos.value);
      buf[pos.value] := NUL;
      assert buf[..] == before[pos.value := NUL] && buf[pos.value + 1..] == before[pos.value + 1..];
      RosterKept(groups);
      label L:
      group, user, resource, at := FindUserAndResource(groups, CString(buf[..]), Some(CString(buf[pos.value + 1..])));
      buf[pos.value] := '/';
      assert buf[..] == before;
    }
  }

  /** The bare and any full form of a JID find the same user. */
  lemma BareAndFullAgree(gs: seq<Group>, jid: string, res: string)
    requires Bare(jid)
    ensures FindUser(gs, Strip(FullJid(jid, res))) == FindUser(gs, Strip(jid))
    ensures Extract(FullJid(jid, res)) == Some(res) && Extract(jid) == None
  {
    JoinSplits(jid, res);
    SplitRebuilds(jid);
  }

  // ----- Resolving names

  ghost predicate NotNamed(us: seq<User>, k: int, name: string) {
    0 <= k <= |us| && forall j | 0 <= j < k :: us[j].name != Some(name)
  }

  lemma {:induction false} FindNamedFirst(us: seq<User>, k: nat, name: string)
    requires NotNamed(us, k, name)
    ensures k < |us| && us[k].name == Some(name) ==> FindNamed(us, name) == Some(us[k])
    ensures k == |us| ==> FindNamed(us, name) == None
  {
    if k == 0 {
    } else {
      FindNamedFirst(us[1..], k - 1, name);
    }
  }

  ghost predicate NoneNamed(gs: seq<Group>, i: int, name: string) {
    0 <= i <= |gs| && forall h | 0 <= h < i :: FindNamed(gs[h].users, name) == None
  }

  lemma {:induction false} FindUsernameFirst(gs: seq<Group>, g: nat, name: string)
    requires g <= |gs| && NoneNamed(gs, g, name)
    ensures g < |gs| && FindNamed(gs[g].users, name).Some? ==> FindUsername(gs, name) == FindNamed(gs[g].users, name)
    ensures g == |gs| ==> FindUsername(gs, name) == None
  {
    if g == 0 {
    } else {
      FindUsernameFirst(gs[1..], g - 1, name);
    }
  }

  /** `find_username` */
  method FindUsernameRec(groups: seq<GroupRec>, name: string) returns (user: UserRec?)
    ensures match FindUsername(GroupViews(groups), name)
            case None => user == null
            case Some(u) => user != null && user.View() == u
  {
    ghost var gs := GroupViews(groups);
    for i := 0 to |groups|
      invariant gs == GroupViews(groups) && NoneNamed(gs, i, name)
    {
      var us := groups[i].users;
      ghost var vs := gs[i].users;
      assert gs[i] == groups[i].View();
      for k := 0 to |us|
        invariant gs == GroupViews(groups) && NotNamed(vs, k, name)
      {
        assert vs[k] == us[k].View();
        FindNamedFirst(vs, k, name);
        if us[k].name == Some(name) {
          FindUsernameFirst(gs, i, name);
          return us[k];
        }
      }
      FindNamedFirst(vs, |us|, name);
    }
    FindUsernameFirst(gs, |groups|, name);
    return null;
  }

  predicate IsSpace(c: char) {
    c == ' ' || '\t' <= c <= '\r'
  }

  /** `g_strchug` */
  function Chug(s: string): string {
    if s != "" && IsSpace(s[0]) then Chug(s[1..]) else s
  }

  /** `g_strchomp` */
  function Chomp(s: string): string {
    if s != "" && IsSpace(s[|s| - 1]) then Chomp(s[..|s| - 1]) else s
  }

  /** `g_strstrip` */
  function Trim(s: string): string {
    Chomp(Chug(s))
  }

  /** Only white space: space, tab, line feed, vertical tab, form feed and carriage return. */
  predicate Blank(s: string) {
    forall c | c in s :: c as int in {32, 9, 10, 11, 12, 13}
  }

  lemma BlankOne(c: char)
    ensures Blank([c]) <==> IsSpace(c)
  {
    assert c in [c];
    assert forall d | d in [c] :: d == c;
  }

  lemma {:induction false} ChugExactly(s: string) returns (front: string)
    ensures s == front + Chug(s) && Blank(front)
    ensures Chug(s) != "" ==> !Blank([Chug(s)[0]])
  {
    if s != "" && IsSpace(s[0]) {
      front := ChugExactly(s[1..]);
      BlankOne(s[0]);
      front := [s[0]] + front;
    } else {
      if s != "" {
        BlankOne(s[0]);
      }
      front := "";
    }
  }

  lemma {:induction false} ChompExactly(s: string) returns (end: string)
    ensures s == Chomp(s) + end && Blank(end)
    ensures Chomp(s) != "" ==> Chomp(s)[0] == s[0] && !Blank([Chomp(s)[|Chomp(s)| - 1]])
  {
    if s != "" && IsSpace(s[|s| - 1]) {
      end := ChompExactly(s[..|s| - 1]);
      BlankOne(s[|s| - 1]);
      end := end + [s[|s| - 1]];
    } else {
      if s != "" {
        BlankOne(s[|s| - 1]);
      }
      end := "";
    }
  }

  /** Stripping takes off the white space at both ends, all of it and nothing else. */
  lemma TrimExactly(s: string)
    ensures exists front, end :: s == front + Trim(s) + end && Blank(front) && Blank(end)
    ensures Trim(s) != "" ==> !Blank([Trim(s)[0]]) && !Blank([Trim(s)[|Trim(s)| - 1]])
  {
    var front := ChugExactly(s);
    var end := ChompExactly(Chug(s));
    assert s == front + Trim(s) + end;
  }

  /** The string in a buffer is the part in front of its first NUL. */
  lemma CStringIs(buf: seq<char>, s: string)
    requires |s| < |buf| && buf[..|s|] == s && NUL !in s && buf[|s|] == NUL
    ensures NUL in buf && CString(buf) == s
  {
    assert forall j | 0 <= j < |s| :: buf[j] == s[j] && s[j] in s;
    IndexOfFirst(buf, NUL, |s|);
  }

  lemma CStringEnds(buf: seq<char>)
    requires NUL in buf
    ensures var s := CString(buf);
            && |s| < |buf| && buf[..|s|] == s && NUL !in s && buf[|s|] == NUL
            && forall j | 0 <= j < |s| :: buf[j] == s[j] && buf[j] != NUL
  {
    var s := CString(buf);
    assert forall j | 0 <= j < |s| :: buf[..|s|][j] == buf[j] && s[j] in s;
  }

  /** `g_strchug`: the string moves to the front of its buffer. */
  method ChugInPlace(buf: array<char>)
    requires NUL in buf[..]
    modifies buf
    ensures NUL in buf[..] && CString(buf[..]) == Chug(old(CString(buf[..])))
  {
    ghost var s := CString(buf[..]);
    CStringEnds(buf[..]);
    var start := 0;
    while IsSpace(buf[start])
      invariant start <= |s| && Chug(s) == Chug(s[start..])
      decreases |s| - start
    {
      assert start < |s| && s[start] == buf[start] && s[start..][1..] == s[start + 1..];
      start := start + 1;
    }
    ghost var rest := s[start..];
    assert start < |s| ==> s[start] == buf[start];
    var i := 0;
    while buf[start + i] != NUL
      invariant i <= |rest|
      invariant forall j | 0 <= j < i :: buf[j] == rest[j]
      invariant forall j | i <= j < buf.Length :: buf[j] == old(buf[j])
      decreases |rest| - i
    {
      assert old(buf[..])[start + i] == buf[start + i];
      buf[i] := buf[start + i];
      i := i + 1;
    }
    assert old(buf[..])[start + i] == NUL;
    buf[i] := NUL;
    assert buf[..|rest|] == rest;
    CStringIs(buf[..], rest);
  }

  /** `g_strchomp`: trailing white space becomes NULs. */
  method ChompInPlace(buf: array<char>)
    requires NUL in buf[..]
    modifies buf
    ensures NUL in buf[..] && CString(buf[..]) == Chomp(old(CString(buf[..])))
  {
    ghost var s := CString(buf[..]);
    CStringEnds(buf[..]);
    assert s[..|s|] == s;
    var n := IndexOf(buf[..], NUL).value;
    while n > 0 && IsSpace(buf[n - 1])
      invariant 0 <= n <= |s| && buf[..n] == s[..n] && buf[n] == NUL && Chomp(s) == Chomp(s[..n])
      decreases n
    {
      assert buf[n - 1] == buf[..n][n - 1] == s[n - 1] && s[..n][..n - 1] == s[..n - 1];
      assert buf[..n][..n - 1] == buf[..n - 1];
      n := n - 1;
      buf[n] := NUL;
    }
    assert n > 0 ==> buf[n - 1] == buf[..n][n - 1] == s[n - 1];
    CStringIs(buf[..], s[..n]);
  }

  method ResolveTrimmed(groups: seq<GroupRec>, name: string) returns (full: Option<string>)
    ensures full == ResolveName(old(GroupViews(groups)), name)
  {
    ghost var gs := GroupViews(groups);
    var user := FindUsernameRec(groups, name);
    RosterKept(groups);
    if user == null {
      var g, u, at := FindUserRec(groups, Strip(name));
      RosterKept(groups);
      user := u;
      if user != null {
        ViewAt(groups, g, u, at.value);
      }
    }
    if user == null {
      return None;
    }
    assert ResolvedUser(gs, name) == Some(user.View());
    if HasResource(name) {
      return Some(FullJid(user.jid, Extract(name).value));
    }
    if |user.resources| > 0 {
      assert user.View().resources[0] == user.resources[0].View();
      var res := user.resources[0].name;
      if res != "" {
        return Some(FullJid(user.jid, res));
      }
    }
    return Some(user.jid);
  }

  /** `rosters_resolve_name`; the name is stripped where it is. */
  method ResolveNameRec(groups: seq<GroupRec>, buf: array<char>) returns (full: Option<string>)
    requires NUL in buf[..]
    modifies buf
    ensures NUL in buf[..] && CString(buf[..]) == Trim(old(CString(buf[..])))
    ensures full == ResolveName(old(GroupViews(groups)), CString(buf[..]))
  {
    ChugInPlace(buf);
    ChompInPlace(buf);
    RosterKept(groups);
    full := ResolveTrimmed(groups, CString(buf[..]));
  }
}
