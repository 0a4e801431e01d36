/**
  The record of one user in memory: two neighbouring arrays of 255 characters, the admin flag behind
  them and the connection count at the end, filled by unchecked string copies.
 */
module UserRecord {
  import opened Buckets

  /** What a char* points at: the characters before the terminator. */
  type CString = s: Key | 0 !in s witness []

  const MAX_CREDENTIAL_SIZE := 255

  const PASSWORD_AT := MAX_CREDENTIAL_SIZE
  const ADMIN_AT := PASSWORD_AT + MAX_CREDENTIAL_SIZE
  /** A two-byte field at an even place, behind one byte nobody writes. */
  const COUNT_AT := ADMIN_AT + 2
  const RECORD_SIZE := COUNT_AT + 2

  type Record = m: seq<byte> | |m| == RECORD_SIZE witness seq(RECORD_SIZE, _ => 0)

  /** The string that starts at a place in memory; it ends before the first zero byte. */
  function CStr(m: seq<byte>, at: nat): (s: CString)
    requires at <= |m|
    ensures at + |s| <= |m| && s == m[at..at + |s|]
    ensures at + |s| < |m| ==> m[at + |s|] == 0
    decreases |m| - at
  {
    if at == |m| || m[at] == 0 then [] else [m[at]] + CStr(m, at + 1)
  }

  lemma {:induction false} CStrIs(m: seq<byte>, at: nat, s: CString)
    requires at + |s| < |m|
    ensures CStr(m, at) == s <==> m[at..at + |s|] == s && m[at + |s|] == 0
    decreases |s|
  {
    if s == [] {
    } else {
      assert s[0] in s && m[at..at + |s|][0] == m[at];
      if m[at] == s[0] {
        CStrIs(m, at + 1, s[1..]);
        assert s == [s[0]] + s[1..] && m[at..at + |s|] == [m[at]] + m[at + 1..at + |s|];
      }
    }
  }

  /** The string of bytes that are followed by a terminator: they end early at a zero among them. */
  function Cut(s: Key): (c: CString)
    ensures |c| <= |s| && c == s[..|c|] && (|c| < |s| ==> s[|c|] == 0) && (0 !in s ==> c == s)
  {
    var c := CStr(s + [0], 0);
    assert |c| <= |s| by { assert (s + [0])[|s|] == 0 && forall i :: 0 <= i < |c| ==> c[i] in c; }
    assert c == s[..|c|];
    assert |c| < |s| ==> s[|c|] == (s + [0])[|c|] == 0;
    c
  }

  lemma CutIsStored(m: seq<byte>, s: Key)
    requires |s| < |m| && m[..|s|] == s && m[|s|] == 0
    ensures CStr(m, 0) == Cut(s)
  {
    var c := CStr(s + [0], 0);
    assert m[..|c|] == m[..|s|][..|c|];
    assert m[|c|] == (s + [0])[|c|] by { if |c| < |s| { assert m[..|s|][|c|] == s[|c|]; } }
    CStrIs(m, 0, c);
  }

  lemma CStrNext(m: seq<byte>, at: nat)
    requires at < |m| && m[at] != 0
    ensures CStr(m, at) == [m[at]] + CStr(m, at + 1)
  {}

  /** A stretch without terminator runs on into what lies behind it. */
  lemma {:induction false} CStrRunsOn(m: seq<byte>, at: nat, n: nat)
    requires at + n <= |m| && 0 !in m[at..at + n]
    ensures CStr(m, at) == m[at..at + n] + CStr(m, at + n)
    decreases n
  {
    hide CStr;
    if n > 0 {
      var xs, ys := m[at..at + n], m[at + 1..at + n];
      assert m[at] == xs[0] && xs[1..] == ys && xs == [m[at]] + ys;
      CStrRunsOn(m, at + 1, n - 1);
      CStrNext(m, at);
      assert [m[at]] + (ys + CStr(m, at + n)) == xs + CStr(m, at + n);
    } else {
      assert m[at..at] == [];
    }
  }

  /** strcpy */
  function Copied(m: seq<byte>, at: nat, s: CString): (r: seq<byte>)
    requires at + |s| < |m|
    ensures |r| == |m|
  {
    m[..at] + s + [0] + m[at + |s| + 1..]
  }

  method StrCpy(memory: array<byte>, at: nat, s: CString)
    requires at + |s| < memory.Length
    modifies memory
    ensures memory[..] == Copied(old(memory[..]), at, s)
  {
    for i := 0 to |s|
      invariant forall k :: 0 <= k < i ==> memory[at + k] == s[k]
      invariant forall k :: 0 <= k < memory.Length && !(at <= k < at + i) ==> memory[k] == old(memory[k])
    {
      memory[at + i] := s[i];
    }
    memory[at + |s|] := 0;
  }

  /** No copy leaves the record; the source relies on that without a check. */
  predicate FitsRecord(username: CString, password: CString) {
    |username| < RECORD_SIZE && PASSWORD_AT + |password| < RECORD_SIZE
  }

  /** A record filled in the source's order: name, password, count, flag. */
  function Filled(username: CString, password: CString, admin: bool, heap: Record): Record
    requires FitsRecord(username, password)
  {
    Copied(Copied(heap, 0, username), PASSWORD_AT, password)
    [COUNT_AT := 0][COUNT_AT + 1 := 0][ADMIN_AT := if admin then 1 else 0]
  }

  function CharsAt(m: seq<byte>, at: nat, n: nat): seq<byte>
    requires at + n <= |m|
  {
    m[at..at + n]
  }

  lemma FilledPassword(username: CString, password: CString, admin: bool, heap: Record)
    requires FitsRecord(username, password)
    ensures var m := Filled(username, password, admin, heap);
            && |CharsAt(m, PASSWORD_AT, |password|)| == |password|
            && (forall i :: 0 <= i < |password| ==>
                  CharsAt(m, PASSWORD_AT, |password|)[i] ==
                    if i == MAX_CREDENTIAL_SIZE then (if admin then 1 else 0)
                    else if PASSWORD_AT + i >= COUNT_AT then 0 else password[i])
            && m[ADMIN_AT] == (if admin then 1 else 0)
            && m[PASSWORD_AT + |password|] == if |password| == MAX_CREDENTIAL_SIZE && admin then 1 else 0
  {}

  lemma FilledName(username: CString, password: CString, admin: bool, heap: Record)
    requires FitsRecord(username, password)
    ensures var m := Filled(username, password, admin, heap);
            forall i :: 0 <= i <= |username| && i < PASSWORD_AT ==>
              m[i] == if i == |username| then 0 else username[i]
  {}

  /** The password reads back exactly when it and its terminator end before the flag, or the flag
      happens to be the byte that belongs there. */
  predicate PasswordKept(password: CString, admin: bool) {
    || |password| < MAX_CREDENTIAL_SIZE
    || (|password| == MAX_CREDENTIAL_SIZE && !admin)
    || (MAX_CREDENTIAL_SIZE < |password| <= MAX_CREDENTIAL_SIZE + 2 && admin && password[MAX_CREDENTIAL_SIZE] == 1)
  }

  lemma PasswordReadsBack(username: CString, password: CString, admin: bool, heap: Record)
    requires FitsRecord(username, password)
    ensures CStr(Filled(username, password, admin, heap), PASSWORD_AT) == password <==> PasswordKept(password, admin)
  {
    hide Filled, Copied;
    var m := Filled(username, password, admin, heap);
    var n := |password|;
    FilledPassword(username, password, admin, heap);
    CStrIs(m, PASSWORD_AT, password);
    var chars := CharsAt(m, PASSWORD_AT, n);
    if PasswordKept(password, admin) {
      assert chars == password;
    } else if n > MAX_CREDENTIAL_SIZE {
      assert password[MAX_CREDENTIAL_SIZE] in password && password[n - 1] in password;
      assert chars[MAX_CREDENTIAL_SIZE] != password[MAX_CREDENTIAL_SIZE] || chars[n - 1] != password[n - 1];
    }
  }

  /** A name of 255 bytes or more has no terminator of its own: its first 255 bytes and the password
      behind them are one string. */
  lemma NameReadsBack(username: CString, password: CString, admin: bool, heap: Record)
    requires FitsRecord(username, password)
    ensures var m := Filled(username, password, admin, heap);
            CStr(m, 0) == if |username| < MAX_CREDENTIAL_SIZE then username
                          else username[..MAX_CREDENTIAL_SIZE] + CStr(m, PASSWORD_AT)
  {
    hide Filled, Copied;
    var m := Filled(username, password, admin, heap);
    FilledName(username, password, admin, heap);
    if |username| < MAX_CREDENTIAL_SIZE {
      assert m[..|username|] == username;
      CStrIs(m, 0, username);
    } else {
      assert m[0..MAX_CREDENTIAL_SIZE] == username[..MAX_CREDENTIAL_SIZE];
      CStrRunsOn(m, 0, MAX_CREDENTIAL_SIZE);
    }
  }

  /** The exact condition for a name and a password to come back as they went in, whatever malloc
      returned: it can be read off the arguments. */
  predicate Kept(username: CString, password: CString, admin: bool) {
    (|username| < MAX_CREDENTIAL_SIZE || username[MAX_CREDENTIAL_SIZE..] == password) && PasswordKept(password, admin)
  }

  lemma RecordReadsBack(username: CString, password: CString, admin: bool, heap: Record)
    requires FitsRecord(username, password) && password != []
    ensures var m := Filled(username, password, admin, heap);
            && (CStr(m, 0) == username && CStr(m, PASSWORD_AT) == password <==> Kept(username, password, admin))
            && (m[ADMIN_AT] != 0 <==> admin)
            && (|CStr(m, 0)| >= MAX_CREDENTIAL_SIZE <==> |username| >= MAX_CREDENTIAL_SIZE)
            && CStr(m, PASSWORD_AT) != []
            && (username != [] ==> CStr(m, 0) != [])
  {
    hide Filled, Copied, CStr, PasswordKept;
    var m := Filled(username, password, admin, heap);
    PasswordReadsBack(username, password, admin, heap);
    NameReadsBack(username, password, admin, heap);
    NotEmpty(username, password, admin, heap);
    if |username| >= MAX_CREDENTIAL_SIZE {
      SameEnding(username, MAX_CREDENTIAL_SIZE, CStr(m, PASSWORD_AT));
    }
  }

  lemma SameEnding(s: Key, n: nat, tail: Key)
    requires n <= |s|
    ensures s[..n] + tail == s <==> tail == s[n..]
  {
    assert s == s[..n] + s[n..];
    assert (s[..n] + tail)[n..] == tail;
  }

  lemma NotEmpty(username: CString, password: CString, admin: bool, heap: Record)
    requires FitsRecord(username, password) && password != []
    ensures var m := Filled(username, password, admin, heap);
            CStr(m, PASSWORD_AT) != [] && m[ADMIN_AT] == if admin then 1 else 0
  {
    hide Filled, Copied;
    var m := Filled(username, password, admin, heap);
    FilledPassword(username, password, admin, heap);
    assert CharsAt(m, PASSWORD_AT, |password|)[0] == password[0] && password[0] in password;
  }
}
