/** C strings as the client uses them: `strcmp`, ASCII case folding and the
    splitting of a JID at its first '/'. A string is a sequence of code points
    without the terminating NUL; a nullable `char *` is an `Option<string>`. */
module Text {
  datatype Option<+T> = None | Some(value: T)

  /** The sign of `strcmp(a, b)`. */
  function StrCmp(a: string, b: string): (r: int)
    ensures -1 <= r <= 1
  {
    if |a| == 0 && |b| == 0 then 0
    else if |a| == 0 then -1
    else if |b| == 0 then 1
    else if a[0] < b[0] then -1
    else if b[0] < a[0] then 1
    else StrCmp(a[1..], b[1..])
  }

  lemma {:induction false} StrCmpAntisymmetric(a: string, b: string)
    ensures StrCmp(a, b) == -StrCmp(b, a)
    ensures StrCmp(a, b) == 0 <==> a == b
  {
    if |a| != 0 && |b| != 0 {
      StrCmpAntisymmetric(a[1..], b[1..]);
      assert a == [a[0]] + a[1..] && b == [b[0]] + b[1..];
    }
  }

  lemma {:induction false} StrCmpTransitive(a: string, b: string, c: string)
    requires StrCmp(a, b) <= 0 && StrCmp(b, c) <= 0
    ensures StrCmp(a, c) <= 0
    ensures StrCmp(a, b) < 0 || StrCmp(b, c) < 0 ==> StrCmp(a, c) < 0
  {
    if |a| != 0 && |b| != 0 && |c| != 0 && a[0] == b[0] == c[0] {
      StrCmpTransitive(a[1..], b[1..], c[1..]);
    }
  }

  /** At `k` the strings differ for the first time: `a` ends there, or is smaller there. */
  predicate FirstLess(a: string, b: string, k: nat) {
    k <= |a| && k < |b| && a[..k] == b[..k] && (k < |a| ==> a[k] < b[k])
  }

  lemma {:induction false} StrCmpFindsLess(a: string, b: string)
    requires StrCmp(a, b) < 0
    ensures exists k :: FirstLess(a, b, k)
  {
    if |a| == 0 || a[0] < b[0] {
      assert FirstLess(a, b, 0);
    } else {
      StrCmpFindsLess(a[1..], b[1..]);
      var k: nat :| FirstLess(a[1..], b[1..], k);
      assert a[..k + 1] == [a[0]] + a[1..][..k] && b[..k + 1] == [b[0]] + b[1..][..k];
      assert FirstLess(a, b, k + 1);
    }
  }

  lemma {:induction false} LessAt(a: string, b: string, k: nat)
    requires FirstLess(a, b, k)
    ensures StrCmp(a, b) < 0
  {
    if k == 0 {
    } else {
      assert a[..k][0] == b[..k][0] && a[..k][1..] == a[1..][..k - 1] && b[..k][1..] == b[1..][..k - 1];
      LessAt(a[1..], b[1..], k - 1);
    }
  }

  /** `strcmp` is negative exactly when the first string is smaller where they first differ. */
  lemma StrCmpExactly(a: string, b: string)
    ensures StrCmp(a, b) < 0 <==> exists k :: FirstLess(a, b, k)
  {
    if StrCmp(a, b) < 0 {
      StrCmpFindsLess(a, b);
    }
    if k: nat :| FirstLess(a, b, k) {
      LessAt(a, b, k);
    }
  }

  // ----- ASCII case folding (`g_ascii_strcasecmp`, `g_ascii_strncasecmp`)

  function Lower(c: char): char {
    if 'A' <= c <= 'Z' then (c as int + 32) as char else c
  }

  lemma LowerExactly(c: char, d: char)
    ensures Lower(c) == Lower(d) <==> c == d || ('A' <= c <= 'Z' && d as int == c as int + 32)
                                      || ('A' <= d <= 'Z' && c as int == d as int + 32)
  {
  }

  function Fold(s: string): (r: string)
    ensures |r| == |s|
  {
    seq(|s|, i requires 0 <= i < |s| => Lower(s[i]))
  }

  predicate CaseEq(a: string, b: string) {
    Fold(a) == Fold(b)
  }

  /** The same character, or the two forms of one ASCII letter. */
  predicate SameLetter(c: char, d: char) {
    c == d || ('A' <= c <= 'Z' && d as int == c as int + 32) || ('A' <= d <= 'Z' && c as int == d as int + 32)
  }

  /** `g_ascii_strcasecmp` is 0 exactly for strings of the same letters. */
  lemma CaseEqExactly(a: string, b: string)
    ensures CaseEq(a, b) <==> |a| == |b| && forall i | 0 <= i < |a| :: SameLetter(a[i], b[i])
  {
    forall i | 0 <= i < |a| && i < |b| ensures Lower(a[i]) == Lower(b[i]) <==> SameLetter(a[i], b[i]) {
      LowerExactly(a[i], b[i]);
    }
    if CaseEq(a, b) {
      forall i | 0 <= i < |a| ensures SameLetter(a[i], b[i]) {
        assert Fold(a)[i] == Lower(a[i]) && Fold(b)[i] == Lower(b[i]);
      }
    }
  }

  // ----- JIDs

  function IndexOf(s: string, c: char): (r: Option<nat>)
    ensures r.Some? ==> r.value < |s| && s[r.value] == c && c !in s[..r.value]
    ensures r.None? ==> c !in s
  {
    if |s| == 0 then None
    else if s[0] == c then Some(0)
    else
      match IndexOf(s[1..], c)
      case None => None
      case Some(i) => assert s[..i + 1] == [s[0]] + s[1..][..i]; Some(i + 1)
  }

  /** `xmpp_strip_resource`: everything before the first '/'. */
  function Strip(jid: string): string {
    match IndexOf(jid, '/')
    case None => jid
    case Some(i) => jid[..i]
  }

  /** `xmpp_extract_resource`: everything after the first '/', if there is one. */
  function Extract(jid: string): Option<string> {
    match IndexOf(jid, '/')
    case None => None
    case Some(i) => Some(jid[i + 1..])
  }

  /** `xmpp_have_resource`: there is a '/' and something follows it. */
  predicate HasResource(jid: string) {
    Extract(jid).Some? && Extract(jid).value != ""
  }

  predicate Bare(jid: string) {
    '/' !in jid
  }

  function FullJid(jid: string, res: string): string {
    jid + "/" + res
  }

  /** Cutting at the first '/' loses nothing. */
  lemma SplitRebuilds(jid: string)
    ensures Bare(Strip(jid))
    ensures Extract(jid).None? <==> Bare(jid)
    ensures Extract(jid).None? ==> Strip(jid) == jid
    ensures Extract(jid).Some? ==> jid == FullJid(Strip(jid), Extract(jid).value)
  {
    if i: nat :| IndexOf(jid, '/') == Some(i) {
      assert jid == jid[..i] + [jid[i]] + jid[i + 1..];
    }
  }

  /** A bare JID and a resource are recovered from the full JID they form, so
      two full JIDs are equal only when both parts are. */
  lemma JoinSplits(jid: string, res: string)
    requires Bare(jid)
    ensures Strip(FullJid(jid, res)) == jid
    ensures Extract(FullJid(jid, res)) == Some(res)
  {
    var full := FullJid(jid, res);
    assert full[|jid|] == '/';
    var i := IndexOf(full, '/').value;
    assert forall k | 0 <= k < |jid| :: jid[k] in jid && full[k] == jid[k];
    assert forall k | 0 <= k < i :: full[k] == full[..i][k] && full[k] in full[..i];
    assert i == |jid|;
    assert full[..|jid|] == jid && full[|jid| + 1..] == res;
  }
}
