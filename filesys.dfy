/** Paths and the file system's entry points (filesys/filesys.c): a path
    is split at runs of '/', walked from the root or the thread's working
    directory through directories, and its last component is created,
    opened, removed or made the working directory. */
module FileSys {
  import opened Bytes
  import opened Block
  import opened Wrappers
  import opened DirSlots
  import opened Volumes
  import opened Directory

  const SLASH: byte := 47

  predicate NoSlash(s: seq<byte>)
  {
    forall i :: 0 <= i < |s| ==> s[i] != SLASH
  }

  // ---------------------------------------------------------------------
  // Splitting a path

  /** The bytes of p before its first '/'. */
  function Token(p: seq<byte>): (w: seq<byte>)
    ensures |w| <= |p| && w == p[..|w|] && NoSlash(w)
    ensures |w| < |p| ==> p[|w|] == SLASH
    ensures p != [] && p[0] != SLASH ==> |w| > 0
  {
    if p == [] || p[0] == SLASH then [] else [p[0]] + Token(p[1..])
  }

  /** The components of path p as dir_open_with_path takes them: those
      before the last, each a directory to pass through, and the last
      one, left in file_name, empty after a trailing '/'. Leading slashes
      are skipped and a run of them separates like one. */
  function Parse(p: seq<byte>): (r: (seq<seq<byte>>, seq<byte>))
    ensures forall i :: 0 <= i < |r.0| ==> r.0[i] != [] && NoSlash(r.0[i])
    ensures NoSlash(r.1) && (CStr(p) ==> CStr(r.1))
    decreases |p|
  {
    if p == [] then ([], [])
    else if p[0] == SLASH then Parse(p[1..])
    else
      var w := Token(p);
      if |w| == |p| then ([], p)
      else
        var r := Parse(p[|w|..]);
        ([w] + r.0, r.1)
  }

  /** A path written from components: each followed by one '/', then the
      last. */
  function Join(cs: seq<seq<byte>>, last: seq<byte>): (p: seq<byte>)
  {
    if cs == [] then last else cs[0] + [SLASH] + Join(cs[1..], last)
  }

  /** The token of a slash-free w followed by '/' is w. */
  lemma {:induction false} TokenBefore(w: seq<byte>, rest: seq<byte>)
    requires NoSlash(w)
    ensures Token(w + [SLASH] + rest) == w
    decreases |w|
  {
    if w != [] {
      assert (w + [SLASH] + rest)[1..] == w[1..] + [SLASH] + rest;
      TokenBefore(w[1..], rest);
    }
  }

  /** The token of a path is unchanged by what follows a slash in it. */
  lemma {:induction false} TokenPrefix(a: seq<byte>, b: seq<byte>)
    requires !NoSlash(a)
    ensures Token(a + b) == Token(a)
    decreases |a|
  {
    if a[0] != SLASH {
      assert (a + b)[1..] == a[1..] + b;
      TokenPrefix(a[1..], b);
    }
  }

  /** A slash-free path is its own token. */
  lemma {:induction false} TokenWhole(w: seq<byte>)
    requires NoSlash(w)
    ensures Token(w) == w
    decreases |w|
  {
    if w != [] {
      TokenWhole(w[1..]);
    }
  }

  /** Splitting a path written from nonempty slash-free components and
      a slash-free last one gives them back. */
  lemma {:induction false} ParseJoin(cs: seq<seq<byte>>, last: seq<byte>)
    requires forall i :: 0 <= i < |cs| ==> cs[i] != [] && NoSlash(cs[i])
    requires NoSlash(last)
    ensures Parse(Join(cs, last)) == (cs, last)
    decreases |cs|
  {
    if cs == [] {
      if last != [] {
        TokenWhole(last);
      }
    } else {
      var rest := Join(cs[1..], last);
      var p := cs[0] + [SLASH] + rest;
      TokenBefore(cs[0], rest);
      assert p[|cs[0]|..] == [SLASH] + rest;
      assert ([SLASH] + rest)[1..] == rest;
      ParseJoin(cs[1..], last);
      assert [cs[0]] + cs[1..] == cs;
    }
  }

  /** The components of a path and the path written from them. */
  lemma {:induction false} JoinParse(p: seq<byte>)
    ensures Parse(Join(Parse(p).0, Parse(p).1)) == Parse(p)
  {
    ParseJoin(Parse(p).0, Parse(p).1);
  }

  /** A path that starts with a token followed by '/' splits into that
      token and the split of the rest. */
  lemma ParseAfter(p: seq<byte>, w: seq<byte>, rest: seq<byte>)
    requires w != [] && NoSlash(w) && p == w + [SLASH] + rest
    ensures Parse(p) == ([w] + Parse([SLASH] + rest).0, Parse([SLASH] + rest).1)
  {
    TokenBefore(w, rest);
    assert p[|w|..] == [SLASH] + rest;
  }

  /** A doubled '/' anywhere splits as a single one. */
  lemma {:induction false} ParseCollapse(a: seq<byte>, b: seq<byte>)
    ensures Parse(a + [SLASH, SLASH] + b) == Parse(a + [SLASH] + b)
    decreases |a|
  {
    if a == [] {
      assert ([SLASH, SLASH] + b)[1..] == [SLASH] + b;
    } else if a[0] == SLASH {
      assert (a + [SLASH, SLASH] + b)[1..] == a[1..] + [SLASH, SLASH] + b;
      assert (a + [SLASH] + b)[1..] == a[1..] + [SLASH] + b;
      ParseCollapse(a[1..], b);
    } else {
      var w := Token(a);
      if |w| == |a| {
        ParseAfter(a + [SLASH, SLASH] + b, a, [SLASH] + b);
        ParseAfter(a + [SLASH] + b, a, b);
        assert ([SLASH] + ([SLASH] + b))[1..] == [SLASH] + b;
      } else {
        CollapseAfter(a, w, b);
      }
    }
  }

  /** ParseCollapse past a first component w of a. */
  lemma {:induction false} CollapseAfter(a: seq<byte>, w: seq<byte>, b: seq<byte>)
    requires a != [] && a[0] != SLASH && w == Token(a) && |w| < |a|
    ensures Parse(a + [SLASH, SLASH] + b) == Parse(a + [SLASH] + b)
    decreases |a|, 0
  {
    var u := a[|w|..];
    var x := u[1..];
    assert a == w + [SLASH] + x;
    var p2, p1 := a + [SLASH, SLASH] + b, a + [SLASH] + b;
    var q2, q1 := x + [SLASH, SLASH] + b, x + [SLASH] + b;
    assert p2 == w + [SLASH] + q2;
    assert p1 == w + [SLASH] + q1;
    ParseAfter(p2, w, q2);
    ParseAfter(p1, w, q1);
    assert u == [SLASH] + x;
    Regroup(x, [SLASH, SLASH], b);
    Regroup(x, [SLASH], b);
    ParseCollapse(u, b);
  }

  lemma Regroup(x: seq<byte>, m: seq<byte>, b: seq<byte>)
    ensures [SLASH] + (x + m + b) == ([SLASH] + x) + m + b
  {
  }

  /** Leading slashes are skipped. */
  lemma {:induction false} ParseSkips(p: seq<byte>, k: nat)
    requires k <= |p| && forall i :: 0 <= i < k ==> p[i] == SLASH
    ensures Parse(p[k..]) == Parse(p)
    decreases k
  {
    if k > 0 {
      ParseSkips(p[1..], k - 1);
      assert p[1..][k - 1..] == p[k..];
    }
  }

  /** One component of a path that starts with a byte other than '/':
      the token up to the next '/' is either the last component or the
      first of those before it. */
  lemma ParseStep(p: seq<byte>, j: nat)
    requires p != [] && p[0] != SLASH && j <= |p| && NoSlash(p[..j]) && (j < |p| ==> p[j] == SLASH)
    ensures Token(p) == p[..j]
    ensures j == |p| ==> Parse(p) == ([], p)
    ensures j < |p| ==> Parse(p) == ([p[..j]] + Parse(p[j..]).0, Parse(p[j..]).1)
  {
    TokenIs(p, j);
  }

  /** The token of p ends at the first '/'. */
  lemma {:induction false} TokenIs(p: seq<byte>, j: nat)
    requires j <= |p| && NoSlash(p[..j]) && (j < |p| ==> p[j] == SLASH)
    ensures Token(p) == p[..j]
    decreases j
  {
    if j > 0 {
      assert p[0] == p[..j][0];
      assert p[1..][..j - 1] == p[1..j];
      assert NoSlash(p[1..][..j - 1]) by {
        forall i | 1 <= i < j ensures p[i] != SLASH {
          assert p[..j][i] == p[i];
        }
      }
      TokenIs(p[1..], j - 1);
      assert p[..j] == [p[0]] + p[1..j];
    }
  }

  // ---------------------------------------------------------------------
  // dir_open_with_path, on the inode layer's state

  /** One step of the walk: dir_lookup of name in the open directory at
      cur, dir_open of the inode it finds (which, like the code, does not
      ask whether that inode is a directory), and dir_close of cur. */
  ghost function Descend(st: State, cur: Sector, name: seq<byte>): (r: (Option<Sector>, State))
    requires Ok(st) && cur in st.opens
    ensures Ok(r.1) && (r.0.Some? ==> r.0.value in r.1.opens)
  {
    var t := Target(st.files[cur], name);
    if t.None? || t.value !in st.files then
      ClosedFrees(st, cur);
      (None, Closed(st, cur))
    else
      OpenedOk(st, t.value);
      OpenNext(Opened(st, t.value), t.value, cur)
  }

  /** The rest of a step once dir_lookup has opened the inode at s. */
  ghost function OpenNext(st: State, s: Sector, cur: Sector): (r: (Option<Sector>, State))
    requires Ok(st) && s in st.opens && cur in st.opens && (s == cur ==> st.opens[s] > 1)
    ensures Ok(r.1) && (r.0.Some? ==> r.0.value in r.1.opens)
  {
    if EntryR(st, s, DOT) < 0 then
      ClosedFrees(st, s);
      var st1 := Closed(st, s);
      ClosedFrees(st1, cur);
      (None, Closed(st1, cur))
    else
      var st2 := EntryS(st, s, DOT, s);
      EntryOk(st, s, DOT, s);
      ClosedFrees(st2, cur);
      (Some(s), Closed(st2, cur))
  }

  lemma OpenedOk(st: State, s: Sector)
    requires Ok(st) && s in st.files
    ensures Ok(Opened(st, s))
  {
  }

  /** A step keeps every open count but takes one reference off cur and
      adds one to the directory it reaches. */
  lemma DescendCount(st: State, cur: Sector, name: seq<byte>, s: Sector)
    requires Ok(st) && cur in st.opens
    ensures var r := Descend(st, cur, name);
      Count(r.1, s) == Count(st, s) - (if s == cur then 1 else 0) + (if r.0 == Some(s) then 1 else 0)
  {
    var t := Target(st.files[cur], name);
    if t.Some? && t.value in st.files {
      var st1 := Opened(st, t.value);
      if EntryR(st1, t.value, DOT) >= 0 {
        assert EntryS(st1, t.value, DOT, t.value).opens == st1.opens;
      }
    }
  }

  /** The walk through the components cs from the open directory at cur:
      the directory reached, or none once a step fails. */
  ghost function WalkS(st: State, cur: Sector, cs: seq<seq<byte>>): (r: (Option<Sector>, State))
    requires Ok(st) && cur in st.opens
    ensures Ok(r.1) && (r.0.Some? ==> r.0.value in r.1.opens)
    decreases |cs|
  {
    if cs == [] then (Some(cur), st)
    else
      var d := Descend(st, cur, cs[0]);
      if d.0.None? then d else WalkS(d.1, d.0.value, cs[1..])
  }

  /** The walk leaks no reference: every directory it opens on the way is
      closed again, and so is cur, except the one it reaches. */
  lemma {:induction false} WalkCount(st: State, cur: Sector, cs: seq<seq<byte>>, s: Sector)
    requires Ok(st) && cur in st.opens
    ensures var r := WalkS(st, cur, cs);
      Count(r.1, s) == Count(st, s) - (if s == cur then 1 else 0) + (if r.0 == Some(s) then 1 else 0)
    decreases |cs|
  {
    if cs != [] {
      var d := Descend(st, cur, cs[0]);
      DescendCount(st, cur, cs[0], s);
      if d.0.Some? {
        WalkCount(d.1, d.0.value, cs[1..], s);
      }
    }
  }

  /** Where the walk of path starts: the root for a path that begins with
      '/' or a thread without a working directory, else a second handle on
      the working directory; none when that directory cannot be opened. */
  ghost function StartS(st: State, cwd: Option<Sector>, path: seq<byte>): (r: (Option<Sector>, State))
    requires Ok(st) && path != [] && (cwd.Some? ==> cwd.value in st.opens)
    ensures Ok(r.1) && (r.0.Some? ==> r.0.value in r.1.opens)
  {
    var s: Sector := if path[0] == SLASH || cwd.None? then ROOT_DIR_SECTOR else cwd.value;
    if s in st.files && EntryR(st, s, DOT) >= 0 then
      EntryOk(st, s, DOT, s);
      OpenedOk(EntryS(st, s, DOT, s), s);
      (Some(s), Opened(EntryS(st, s, DOT, s), s))
    else (None, st)
  }

  /** The walk through cs from the directory at f, refused when the
      directory it reaches is marked removed. */
  ghost function ReachS(st: State, f: Sector, cs: seq<seq<byte>>): (r: (Option<Sector>, State))
    requires Ok(st) && f in st.opens
    ensures Ok(r.1) && (r.0.Some? ==> r.0.value in r.1.opens && r.0.value !in r.1.removed)
  {
    var w := WalkS(st, f, cs);
    if w.0.Some? && w.0.value in w.1.removed then
      ClosedFrees(w.1, w.0.value);
      (None, Closed(w.1, w.0.value))
    else w
  }

  /** dir_open_with_path: the directory that holds the last component of
      path, opened, and the state it leaves; none for the empty path, a
      start that cannot be opened, a step that fails, or a directory
      reached that is marked removed. */
  ghost function PathS(st: State, cwd: Option<Sector>, path: seq<byte>): (r: (Option<Sector>, State))
    requires Ok(st) && (cwd.Some? ==> cwd.value in st.opens)
    ensures Ok(r.1) && (r.0.Some? ==> r.0.value in r.1.opens && r.0.value !in r.1.removed)
  {
    if path == [] then (None, st)
    else
      var b := StartS(st, cwd, path);
      if b.0.None? then b else ReachS(b.1, b.0.value, Parse(path).0)
  }

  /** Taking the walk's result back when it is removed drops the one
      reference the walk left on it. */
  lemma ReachCount(st: State, f: Sector, cs: seq<seq<byte>>, s: Sector)
    requires Ok(st) && f in st.opens
    ensures var w, r := WalkS(st, f, cs), ReachS(st, f, cs);
      Count(r.1, s) == Count(w.1, s) - (if w.0 == Some(s) && r.0.None? then 1 else 0)
  {
  }

  /** The start of the walk takes one reference, on the directory it
      opens. */
  lemma StartCount(st: State, cwd: Option<Sector>, path: seq<byte>, s: Sector)
    requires Ok(st) && path != [] && (cwd.Some? ==> cwd.value in st.opens)
    ensures var b := StartS(st, cwd, path); Count(b.1, s) == Count(st, s) + (if b.0 == Some(s) then 1 else 0)
  {
    var b := StartS(st, cwd, path);
    if b.0.Some? {
      var f := b.0.value;
      assert EntryS(st, f, DOT, f).opens == st.opens;
    }
  }

  /** dir_open_with_path leaks no reference: every open count is as it
      was but that of the directory it returns, which has one more. */
  lemma PathCount(st: State, cwd: Option<Sector>, path: seq<byte>, s: Sector)
    requires Ok(st) && (cwd.Some? ==> cwd.value in st.opens)
    ensures var r := PathS(st, cwd, path); Count(r.1, s) == Count(st, s) + (if r.0 == Some(s) then 1 else 0)
  {
    if path != [] {
      var b := StartS(st, cwd, path);
      StartCount(st, cwd, path, s);
      if b.0.Some? {
        WalkCount(b.1, b.0.value, Parse(path).0, s);
        ReachCount(b.1, b.0.value, Parse(path).0, s);
      }
    }
  }

  /** A doubled '/' anywhere in a path resolves as a single one. */
  lemma {:induction false} PathCollapse(st: State, cwd: Option<Sector>, a: seq<byte>, b: seq<byte>)
    requires Ok(st) && (cwd.Some? ==> cwd.value in st.opens)
    ensures PathS(st, cwd, a + [SLASH, SLASH] + b) == PathS(st, cwd, a + [SLASH] + b)
  {
    ParseCollapse(a, b);
    var p2, p1 := a + [SLASH, SLASH] + b, a + [SLASH] + b;
    assert p2[0] == p1[0] by {
      if a != [] {
        assert p2[0] == a[0] && p1[0] == a[0];
      }
    }
  }

  /** An absolute path resolves the same whatever the working directory. */
  lemma PathAbsolute(st: State, cwd: Option<Sector>, p: seq<byte>)
    requires Ok(st) && (cwd.Some? ==> cwd.value in st.opens) && p != [] && p[0] == SLASH
    ensures PathS(st, cwd, p) == PathS(st, None, p)
  {
    assert StartS(st, cwd, p) == StartS(st, None, p);
  }

  /** A relative path, for a thread without a working directory, resolves
      as if it began with '/'. */
  lemma PathNoCwd(st: State, q: seq<byte>)
    requires Ok(st) && q != []
    ensures PathS(st, None, q) == PathS(st, None, [SLASH] + q)
  {
    assert ([SLASH] + q)[1..] == q;
    assert StartS(st, None, q) == StartS(st, None, [SLASH] + q);
  }

  /** "/" opens the root directory, with the empty last component, when
      the root has or takes its "." and is not removed. */
  lemma PathRoot(st: State, cwd: Option<Sector>)
    requires Ok(st) && (cwd.Some? ==> cwd.value in st.opens)
    requires ROOT_DIR_SECTOR in st.files && EntryR(st, ROOT_DIR_SECTOR, DOT) >= 0 && ROOT_DIR_SECTOR !in st.removed
    ensures var r := PathS(st, cwd, [SLASH]);
      r.0 == Some(ROOT_DIR_SECTOR) && r.1 == Opened(EntryS(st, ROOT_DIR_SECTOR, DOT, ROOT_DIR_SECTOR), ROOT_DIR_SECTOR)
    ensures Parse([SLASH]).1 == []
  {
    assert [SLASH][1..] == [];
    var b := StartS(st, cwd, [SLASH]);
    assert b.0 == Some(ROOT_DIR_SECTOR);
    assert WalkS(b.1, ROOT_DIR_SECTOR, Parse([SLASH]).0) == b;
  }

  /** A relative path of one component names an entry of the working
      directory itself. */
  lemma PathHere(st: State, c: Sector, name: seq<byte>)
    requires Ok(st) && c in st.opens && name != [] && NoSlash(name)
    requires EntryR(st, c, DOT) >= 0 && c !in st.removed
    ensures PathS(st, Some(c), name) == (Some(c), Opened(EntryS(st, c, DOT, c), c))
    ensures Parse(name).1 == name
  {
    TokenWhole(name);
  }

  /** The directory a step reaches has a "." entry. */
  lemma DescendDot(st: State, cur: Sector, name: seq<byte>)
    requires Ok(st) && cur in st.opens
    ensures var d := Descend(st, cur, name); d.0.Some? ==> Holds(d.1.files[d.0.value], DOT)
  {
    var t := Target(st.files[cur], name);
    if t.Some? && t.value in st.files {
      OpenedOk(st, t.value);
      OpenNextDot(Opened(st, t.value), t.value, cur);
    }
  }

  lemma OpenNextDot(st: State, s: Sector, cur: Sector)
    requires Ok(st) && s in st.opens && cur in st.opens && (s == cur ==> st.opens[s] > 1)
    ensures var d := OpenNext(st, s, cur); d.0.Some? ==> Holds(d.1.files[s], DOT)
  {
    if EntryR(st, s, DOT) >= 0 {
      var st2 := EntryS(st, s, DOT, s);
      EntryAdds(st, s, DOT, s, DOT);
      assert st2.opens == st.opens;
      ClosedKeeps(st2, cur, s);
    }
  }

  /** Closing c keeps the content of every other inode still open. */
  lemma ClosedKeeps(st: State, c: Sector, s: Sector)
    requires c in st.opens && s in st.opens && s in st.files && st.opens[c] > 0 && (s == c ==> st.opens[s] > 1)
    ensures s in Closed(st, c).files && Closed(st, c).files[s] == st.files[s]
  {
  }

  /** The directory a successful walk reaches has a "." entry. */
  lemma {:induction false} WalkDot(st: State, cur: Sector, cs: seq<seq<byte>>)
    requires Ok(st) && cur in st.opens && Holds(st.files[cur], DOT)
    ensures var w := WalkS(st, cur, cs); w.0.Some? ==> Holds(w.1.files[w.0.value], DOT)
    decreases |cs|
  {
    if cs != [] {
      var d := Descend(st, cur, cs[0]);
      if d.0.Some? {
        DescendDot(st, cur, cs[0]);
        WalkDot(d.1, d.0.value, cs[1..]);
      }
    }
  }

  /** The directory the walk starts from has a "." entry. */
  lemma StartDot(st: State, cwd: Option<Sector>, path: seq<byte>)
    requires Ok(st) && path != [] && (cwd.Some? ==> cwd.value in st.opens)
    ensures var b := StartS(st, cwd, path); b.0.Some? ==> Holds(b.1.files[b.0.value], DOT)
  {
    var b := StartS(st, cwd, path);
    if b.0.Some? {
      var f := b.0.value;
      EntryAdds(st, f, DOT, f, DOT);
    }
  }

  /** The directory dir_open_with_path returns has a "." entry. */
  lemma PathDot(st: State, cwd: Option<Sector>, path: seq<byte>)
    requires Ok(st) && (cwd.Some? ==> cwd.value in st.opens)
    ensures var r := PathS(st, cwd, path); r.0.Some? ==> Holds(r.1.files[r.0.value], DOT)
  {
    if path != [] {
      var b := StartS(st, cwd, path);
      StartDot(st, cwd, path);
      if b.0.Some? {
        WalkDot(b.1, b.0.value, Parse(path).0);
      }
    }
  }

  // ---------------------------------------------------------------------
  // dir_open_with_path

  /** The part of struct thread the file system uses: the working
      directory, none for the root. */
  class Thread {
    var cwd: Dir?

    constructor ()
      ensures cwd == null
    {
      cwd := null;
    }
  }

  function Cwd(th: Thread): Option<Sector>
    reads th
  {
    if th.cwd == null then None else Some(th.cwd.inode)
  }

  /** The thread holds a reference on its working directory. */
  predicate CwdOpen(v: Volume, th: Thread)
    reads v, th
  {
    th.cwd != null ==> th.cwd.inode in v.opens
  }

  /** The start of dir_open_with_path: the directory to walk from, and the
      index past the leading slashes of an absolute path. */
  method StartDir(v: Volume, th: Thread, path: seq<byte>) returns (d: Dir?, i: nat)
    requires v.Valid() && CwdOpen(v, th) && path != []
    modifies v
    ensures v.Valid()
    ensures var b := StartS(old(v.St()), Cwd(th), path);
      && (d != null <==> b.0.Some?) && (d != null ==> fresh(d) && Some(d.inode) == b.0) && v.St() == b.1
    ensures i <= |path| && (i < |path| ==> path[i] != SLASH) && Parse(path[i..]) == Parse(path)
  {
    d := OpenStart(v, th, path[0] == SLASH);
    i := 0;
    if path[0] == SLASH {
      i := SkipSlashes(path, 0);
      assert path[0..] == path;
    }
  }

  /** The directory the walk starts from: the root, for an absolute path
      or a thread without a working directory, else a second handle on the
      working directory. */
  method OpenStart(v: Volume, th: Thread, absolute: bool) returns (d: Dir?)
    requires v.Valid() && CwdOpen(v, th)
    modifies v
    ensures v.Valid()
    ensures var b := StartS(old(v.St()), Cwd(th), if absolute then [SLASH] else [0]);
      && (d != null <==> b.0.Some?) && (d != null ==> fresh(d) && Some(d.inode) == b.0) && v.St() == b.1
  {
    if absolute || th.cwd == null {
      d := DirOpenRoot(v);
    } else {
      d := DirReopen(v, th.cwd);
    }
  }

  /** One step of the loop of dir_open_with_path: the next directory, and
      the current one closed. */
  method Step(v: Volume, d: Dir, name: seq<byte>) returns (next: Dir?)
    requires v.Valid() && d.inode in v.opens
    modifies v
    ensures v.Valid()
    ensures var r := Descend(old(v.St()), d.inode, name);
      && (next != null <==> r.0.Some?) && (next != null ==> fresh(next) && Some(next.inode) == r.0) && v.St() == r.1
  {
    ghost var st0 := v.St();
    var inode := DirLookup(v, d, name);
    if inode.Some? {
      OpenedOk(st0, inode.value);
    }
    next := DirOpen(v, inode);
    DirClose(v, d);
  }

  /** The scan for the end of a component: the index of the first '/'
      from i on, or the end of path. */
  method TokenEnd(path: seq<byte>, i: nat) returns (j: nat)
    requires i <= |path|
    ensures i <= j <= |path| && (j < |path| ==> path[j] == SLASH)
    ensures forall k :: i <= k < j ==> path[k] != SLASH
  {
    j := i;
    while j < |path| && path[j] != SLASH
      invariant i <= j <= |path| && forall k :: i <= k < j ==> path[k] != SLASH
    {
      j := j + 1;
    }
  }

  /** The scan past a run of slashes from j. */
  method SkipSlashes(path: seq<byte>, j: nat) returns (m: nat)
    requires j <= |path|
    ensures j <= m <= |path| && (m < |path| ==> path[m] != SLASH)
    ensures Parse(path[m..]) == Parse(path[j..])
  {
    m := j;
    while m < |path| && path[m] == SLASH
      invariant j <= m <= |path| && forall k :: j <= k < m ==> path[k] == SLASH
    {
      m := m + 1;
    }
    ParseSkips(path[j..], m - j);
    assert path[j..][m - j..] == path[m..];
  }

  /** The component of path from i to the next '/' at j: the last one
      when j is the end, else the first directory to pass through. */
  lemma TokenSplit(path: seq<byte>, i: nat, j: nat)
    requires i <= j <= |path| && (i < |path| ==> path[i] != SLASH) && (j < |path| ==> path[j] == SLASH)
    requires forall k :: i <= k < j ==> path[k] != SLASH
    ensures j == |path| ==> Parse(path[i..]) == ([], path[i..])
    ensures j < |path| ==> && Parse(path[i..]).0 == [path[i..j]] + Parse(path[j..]).0
                           && Parse(path[i..]).1 == Parse(path[j..]).1
  {
    var p := path[i..];
    if p != [] {
      forall k | 0 <= k < j - i ensures p[k] != SLASH {
        assert p[k] == path[i + k];
      }
      assert NoSlash(p[..j - i]);
      ParseStep(p, j - i);
      assert p[..j - i] == path[i..j];
      assert p[j - i..] == path[j..];
    }
  }

  /** A walk through components [c] + cs makes the step for c first. */
  lemma WalkCons(st: State, cur: Sector, c: seq<byte>, cs: seq<seq<byte>>)
    requires Ok(st) && cur in st.opens
    ensures var d := Descend(st, cur, c);
      WalkS(st, cur, [c] + cs) == if d.0.None? then d else WalkS(d.1, d.0.value, cs)
  {
    assert ([c] + cs)[1..] == cs;
  }

  /** The loop of dir_open_with_path from the index i0 of path, which is
      its end or holds no '/': every component but the last is walked
      through, and the last is returned. */
  method Walk(v: Volume, d0: Dir, path: seq<byte>, i0: nat) returns (d: Dir?, name: seq<byte>)
    requires v.Valid() && d0.inode in v.opens && i0 <= |path| && (i0 < |path| ==> path[i0] != SLASH)
    modifies v
    ensures v.Valid()
    ensures var w := WalkS(old(v.St()), d0.inode, Parse(path[i0..]).0);
      && (d != null <==> w.0.Some?) && (d != null ==> (d == d0 || fresh(d)) && Some(d.inode) == w.0) && v.St() == w.1
    ensures d != null ==> name == Parse(path[i0..]).1
  {
    ghost var w0 := WalkS(v.St(), d0.inode, Parse(path[i0..]).0);
    ghost var last := Parse(path[i0..]).1;
    d := d0;
    var i := i0;
    while true
      invariant v.Valid() && d != null && d.inode in v.opens && (d == d0 || fresh(d))
      invariant i0 <= i <= |path| && (i < |path| ==> path[i] != SLASH)
      invariant WalkS(v.St(), d.inode, Parse(path[i..]).0) == w0 && Parse(path[i..]).1 == last
      decreases |path| - i
    {
      var j := TokenEnd(path, i);
      TokenSplit(path, i, j);
      if j == |path| {
        return d, path[i..];
      }
      WalkCons(v.St(), d.inode, path[i..j], Parse(path[j..]).0);
      var next := Step(v, d, path[i..j]);
      if next == null {
        return null, [];
      }
      d := next;
      i := SkipSlashes(path, j);
    }
  }

  /** The end of dir_open_with_path: the walk, and the test that the
      directory reached is not removed. */
  method Reach(v: Volume, d0: Dir, path: seq<byte>, i: nat) returns (d: Dir?, name: seq<byte>)
    requires v.Valid() && d0.inode in v.opens && i <= |path| && (i < |path| ==> path[i] != SLASH)
    modifies v
    ensures v.Valid()
    ensures var r := ReachS(old(v.St()), d0.inode, Parse(path[i..]).0);
      && (d != null <==> r.0.Some?) && (d != null ==> (d == d0 || fresh(d)) && Some(d.inode) == r.0) && v.St() == r.1
    ensures d != null ==> name == Parse(path[i..]).1
  {
    d, name := Walk(v, d0, path, i);
    if d != null && d.inode in v.removed {
      DirClose(v, d);
      return null, [];
    }
  }

  /** dir_open_with_path: the directory that holds the last component of
      path, and that component. */
  method OpenWithPath(v: Volume, th: Thread, path: seq<byte>) returns (d: Dir?, name: seq<byte>)
    requires v.Valid() && CwdOpen(v, th)
    modifies v
    ensures v.Valid()
    ensures var r := PathS(old(v.St()), Cwd(th), path);
      && (d != null <==> r.0.Some?) && (d != null ==> fresh(d) && Some(d.inode) == r.0) && v.St() == r.1
    ensures d != null ==> name == Parse(path).1
  {
    if path == [] {
      return null, [];
    }
    var start, i := StartDir(v, th, path);
    if start == null {
      return null, [];
    }
    d, name := Reach(v, start, path, i);
  }

  // ---------------------------------------------------------------------
  // filesys_create

  /** free_map_release of the sector s, which holds no open inode. */
  ghost function Released(st: State, s: Sector): (st': State)
    requires Ok(st) && s < SECTOR_LIMIT && s !in st.opens
    ensures Ok(st')
  {
    st.(files := st.files - {s}, dirs := st.dirs - {s}, free := st.free + {s})
  }

  /** dir_add keeps the inode layer's state well formed. */
  lemma DirAddOk(st: State, f: Sector, name: seq<byte>, s: Sector, isDir: bool)
    requires Ok(st) && f in st.files && s < SECTOR_LIMIT && CStr(name)
    ensures Ok(DirAddS(st, f, name, s, isDir))
  {
    DirAddFrame(st, f, name, s, isDir);
    if isDir {
      LinkOk(st, f, s);
      DirAddFrame(st, f, name, s, false);
      if LinkR(st, f, s) {
        EntryOk(LinkS(st, f, s), f, name, s);
      }
    } else {
      EntryOk(st, f, name, s);
    }
  }

  /** The inode layer once inode_create has made the inode at s. */
  ghost function MadeS(st: State, s: Sector, size: nat, isDir: bool): (st': State)
    requires Ok(st) && s in st.free
    ensures Ok(st') && s in st'.files && s !in st'.opens
  {
    ZerosOk(size);
    st.(files := st.files[s := Zeros(size)], dirs := if isDir then st.dirs + {s} else st.dirs,
        free := st.free - {s})
  }

  /** filesys_create once the path has opened the directory at f and
      free_map_allocate has taken the sector s: inode_create and dir_add,
      free_map_release of s if either fails (unless s is sector 0), and
      dir_close of f. */
  ghost function CreateS(st: State, f: Sector, name: seq<byte>, s: Sector, size: nat, isDir: bool): (r: (bool, State))
    requires Ok(st) && f in st.opens && s in st.free && CStr(name)
    ensures Ok(r.1)
  {
    var st1 := st.(free := st.free - {s});
    if !st.room || size > MAX_LENGTH then
      var st4 := if s == 0 then st1 else Released(st1, s);
      ClosedFrees(st4, f);
      (false, Closed(st4, f))
    else
      var st2 := MadeS(st, s, size, isDir);
      DirAddOk(st2, f, name, s, isDir);
      DirAddFrame(st2, f, name, s, isDir);
      var ok := DirAddR(st2, f, name, s, isDir);
      var st3 := DirAddS(st2, f, name, s, isDir);
      var st4 := if ok || s == 0 then st3 else Released(st3, s);
      ClosedFrees(st4, f);
      (ok, Closed(st4, f))
  }

  /** A create that succeeds links name in the directory at f to the new
      inode at s, which is taken from the free map: a directory with ".."
      leading back to f, or a file of size zero bytes. */
  lemma CreateAdds(st: State, f: Sector, name: seq<byte>, s: Sector, size: nat, isDir: bool)
    requires Ok(st) && f in st.opens && f !in st.removed && s in st.free && CStr(name)
    requires CreateS(st, f, name, s, size, isDir).0
    ensures var st' := CreateS(st, f, name, s, size, isDir).1;
      && f in st'.files && s in st'.files && Target(st'.files[f], name) == Some(s)
      && (s in st'.dirs <==> isDir) && st'.free == st.free - {s}
      && (isDir ==> Target(st'.files[s], DOTDOT) == Some(f))
      && (!isDir ==> st'.files[s] == Zeros(size))
  {
    var st2 := MadeS(st, s, size, isDir);
    DirAddFrame(st2, f, name, s, isDir);
    DirAddLinks(st2, f, name, s, isDir);
  }

  /** A create that fails gives the sector s back to the free map and
      leaves every other inode on disk, when s is not sector 0. */
  lemma CreateReleases(st: State, f: Sector, name: seq<byte>, s: Sector, size: nat, isDir: bool)
    requires Ok(st) && f in st.opens && f !in st.removed && s in st.free && CStr(name) && s != 0
    requires !CreateS(st, f, name, s, size, isDir).0
    ensures var st' := CreateS(st, f, name, s, size, isDir).1;
      && st'.free == st.free && s !in st'.files
      && (forall t :: t in st'.files <==> t in st.files)
  {
    if st.room && size <= MAX_LENGTH {
      DirAddFrame(MadeS(st, s, size, isDir), f, name, s, isDir);
    }
  }

  /** A create fails on an invalid name, a name the directory holds, and
      a size the inode cannot have or room the free map lacks. */
  lemma CreateRefuses(st: State, f: Sector, name: seq<byte>, s: Sector, size: nat, isDir: bool)
    requires Ok(st) && f in st.opens && s in st.free && CStr(name)
    requires !ValidName(name) || Holds(st.files[f], name) || !st.room || size > MAX_LENGTH
    ensures !CreateS(st, f, name, s, size, isDir).0
  {
    if st.room && size <= MAX_LENGTH {
      var st2 := MadeS(st, s, size, isDir);
      assert st2.files[f] == st.files[f];
      DirAddRefuses(st2, f, name, s, isDir);
    }
  }

  /** filesys_create of path: a new inode of size bytes, a directory when
      isDir, under the last component of path (s is the sector the free
      map gave, when it gave one). */
  method Create(v: Volume, th: Thread, path: seq<byte>, size: nat, isDir: bool) returns (ok: bool, ghost s: Sector)
    requires v.Valid() && CwdOpen(v, th) && CStr(path)
    modifies v
    ensures v.Valid()
    ensures var r := PathS(old(v.St()), Cwd(th), path);
      && (r.0.None? ==> !ok && v.St() == r.1)
      && (r.0.Some? && r.1.free == {} ==> !ok && v.St() == Closed(r.1, r.0.value))
      && (r.0.Some? && r.1.free != {} ==>
            s in r.1.free && (ok, v.St()) == CreateS(r.1, r.0.value, Parse(path).1, s, size, isDir))
  {
    var d, name := OpenWithPath(v, th, path);
    if d == null {
      return false, 0;
    }
    ok, s := CreateIn(v, d, name, size, isDir);
  }

  /** The rest of filesys_create in the open directory d. */
  method CreateIn(v: Volume, d: Dir, name: seq<byte>, size: nat, isDir: bool) returns (ok: bool, ghost s: Sector)
    requires v.Valid() && d.inode in v.opens && CStr(name)
    modifies v
    ensures v.Valid()
    ensures old(v.free) == {} ==> !ok && v.St() == Closed(old(v.St()), d.inode)
    ensures old(v.free) != {} ==>
      s in old(v.free) && (ok, v.St()) == CreateS(old(v.St()), d.inode, name, s, size, isDir)
  {
    ghost var st0 := v.St();
    var got, sector := v.Allocate();
    if !got {
      DirClose(v, d);
      return false, 0;
    }
    s := sector;
    ok := v.Create(sector, size, isDir);
    if ok {
      ghost var st2 := v.St();
      assert st2 == MadeS(st0, s, size, isDir);
      ok := DirAdd(v, d, name, sector, isDir);
      DirAddFrame(st2, d.inode, name, s, isDir);
    }
    if !ok && sector != 0 {
      v.Release(sector);
    }
    DirClose(v, d);
  }

  // ---------------------------------------------------------------------
  // filesys_open and filesys_remove

  /** filesys_open: the inode the new file holds, and the state it
      leaves. An empty last component opens the directory reached itself,
      whose reference passes to the file; otherwise the entry is looked up
      and the directory closed. */
  ghost function OpenS(st: State, cwd: Option<Sector>, path: seq<byte>): (r: (Option<Sector>, State))
    requires Ok(st) && (cwd.Some? ==> cwd.value in st.opens)
    ensures Ok(r.1) && (r.0.Some? ==> r.0.value in r.1.opens)
  {
    var p := PathS(st, cwd, path);
    var name := Parse(path).1;
    if p.0.None? || name == [] then p
    else LookS(p.1, p.0.value, name)
  }

  /** The inode name leads to in the open directory f, opened, and f
      closed. */
  ghost function LookS(st: State, f: Sector, name: seq<byte>): (r: (Option<Sector>, State))
    requires Ok(st) && f in st.opens && f in st.files
    ensures Ok(r.1) && (r.0.Some? ==> r.0.value in r.1.opens)
  {
    var t := Target(st.files[f], name);
    if t.Some? && t.value in st.files then
      OpenedOk(st, t.value);
      ClosedFrees(Opened(st, t.value), f);
      (t, Closed(Opened(st, t.value), f))
    else
      ClosedFrees(st, f);
      (None, Closed(st, f))
  }

  /** filesys_open leaks no reference: the file holds one on its inode,
      and every other open count is as it was. */
  lemma OpenCount(st: State, cwd: Option<Sector>, path: seq<byte>, s: Sector)
    requires Ok(st) && (cwd.Some? ==> cwd.value in st.opens)
    ensures var r := OpenS(st, cwd, path); Count(r.1, s) == Count(st, s) + (if r.0 == Some(s) then 1 else 0)
  {
    PathCount(st, cwd, path, s);
  }

  /** A file opened under a name is the inode that name leads to in the
      directory reached, and a path with an empty last component opens
      that directory itself. */
  lemma OpenFinds(st: State, cwd: Option<Sector>, path: seq<byte>)
    requires Ok(st) && (cwd.Some? ==> cwd.value in st.opens)
    ensures var p, r := PathS(st, cwd, path), OpenS(st, cwd, path);
      && (p.0.None? ==> r.0.None?)
      && (p.0.Some? && Parse(path).1 == [] ==> r.0 == p.0)
      && (p.0.Some? && Parse(path).1 != [] && r.0.Some? ==> Target(p.1.files[p.0.value], Parse(path).1) == r.0)
  {
  }

  /** filesys_open of path. */
  method Open(v: Volume, th: Thread, path: seq<byte>) returns (inode: Option<Sector>)
    requires v.Valid() && CwdOpen(v, th)
    modifies v
    ensures v.Valid()
    ensures (inode, v.St()) == OpenS(old(v.St()), Cwd(th), path)
  {
    var d, name := OpenWithPath(v, th, path);
    if d == null {
      return None;
    }
    if |name| > 0 {
      inode := Look(v, d, name);
    } else {
      inode := Some(d.inode);
    }
  }

  /** dir_lookup of name in d, then dir_close (d). */
  method Look(v: Volume, d: Dir, name: seq<byte>) returns (inode: Option<Sector>)
    requires v.Valid() && d.inode in v.opens
    modifies v
    ensures v.Valid()
    ensures (inode, v.St()) == LookS(old(v.St()), d.inode, name)
  {
    ghost var st1 := v.St();
    inode := DirLookup(v, d, name);
    if inode.Some? {
      OpenedOk(st1, inode.value);
    }
    DirClose(v, d);
  }

  /** filesys_remove: dir_remove of the last component in the directory
      reached, which is then closed. */
  ghost function RemoveFS(st: State, cwd: Option<Sector>, path: seq<byte>): (r: (bool, State))
    requires Ok(st) && (cwd.Some? ==> cwd.value in st.opens)
  {
    var p := PathS(st, cwd, path);
    if p.0.None? then (false, p.1)
    else
      var f := p.0.value;
      var name := Parse(path).1;
      RemoveOpens(p.1, f, name);
      (RemoveR(p.1, f, name), Closed(RemoveS(p.1, f, name), f))
  }

  /** A remove that succeeds drops the name from the directory reached
      (unless the entry was that directory's own "." and nobody else had
      it open, when the directory itself goes), and removes the inode it
      led to: marked while others have it open, freed otherwise. */
  lemma RemoveDrops(st: State, cwd: Option<Sector>, path: seq<byte>)
    requires Ok(st) && (cwd.Some? ==> cwd.value in st.opens)
    requires RemoveFS(st, cwd, path).0
    ensures var p, st' := PathS(st, cwd, path), RemoveFS(st, cwd, path).1;
      var f, t := p.0.value, Target(p.1.files[p.0.value], Parse(path).1).value;
      && (f in p.1.dirs && t != f ==> f in st'.files && !Holds(st'.files[f], Parse(path).1))
      && (t in p.1.opens && t != f ==> t in st'.files && t in st'.removed)
      && (t !in p.1.opens ==> t !in st'.files && t in st'.free)
  {
    var p := PathS(st, cwd, path);
    CloseDrops(p.1, p.0.value, Parse(path).1);
  }

  lemma CloseDrops(st: State, f: Sector, name: seq<byte>)
    requires Ok(st) && f in st.opens && f !in st.removed && RemoveR(st, f, name)
    ensures var st', t := Closed(RemoveS(st, f, name), f), Target(st.files[f], name).value;
      && (f in st.dirs && t != f ==> f in st'.files && !Holds(st'.files[f], name))
      && (t in st.opens && t != f ==> t in st'.files && t in st'.removed)
      && (t !in st.opens ==> t !in st'.files && t in st'.free)
  {
    var t := Target(st.files[f], name).value;
    var st1 := RemoveS(st, f, name);
    RemoveFrees(st, f, name);
    RemoveOpens(st, f, name);
    if f in st.dirs {
      RemoveGone(st, f, name);
    }
    if t != f {
      assert f !in st1.removed by {
        assert RemoveS(st, f, name).removed <= st.removed + {t};
      }
    }
  }

  /** filesys_remove of path. */
  method Remove(v: Volume, th: Thread, path: seq<byte>) returns (ok: bool)
    requires v.Valid() && CwdOpen(v, th)
    modifies v
    ensures v.Valid()
    ensures (ok, v.St()) == RemoveFS(old(v.St()), Cwd(th), path)
  {
    var d, name := OpenWithPath(v, th, path);
    if d == null {
      return false;
    }
    ghost var st1 := v.St();
    ok := DirRemove(v, d, name);
    RemoveOpens(st1, d.inode, name);
    DirClose(v, d);
  }

  // ---------------------------------------------------------------------
  // filesys_chdir

  /** The lookup of filesys_chdir in the open directory at f: dir_lookup
      of name, dir_close of f, and dir_open of what was found. */
  ghost function EnterS(st: State, f: Sector, name: seq<byte>): (r: (Option<Sector>, State))
    requires Ok(st) && f in st.opens
    ensures Ok(r.1) && (r.0.Some? ==> r.0.value in r.1.opens)
  {
    var t := Target(st.files[f], name);
    if t.None? || t.value !in st.files then
      ClosedFrees(st, f);
      (None, Closed(st, f))
    else
      var s := t.value;
      OpenedOk(st, s);
      ClosedFrees(Opened(st, s), f);
      var st1 := Closed(Opened(st, s), f);
      if EntryR(st1, s, DOT) < 0 then
        ClosedFrees(st1, s);
        (None, Closed(st1, s))
      else
        EntryOk(st1, s, DOT, s);
        (Some(s), EntryS(st1, s, DOT, s))
  }

  lemma EnterCount(st: State, f: Sector, name: seq<byte>, s: Sector)
    requires Ok(st) && f in st.opens
    ensures var r := EnterS(st, f, name);
      Count(r.1, s) == Count(st, s) - (if s == f then 1 else 0) + (if r.0 == Some(s) then 1 else 0)
  {
    var t := Target(st.files[f], name);
    if t.Some? && t.value in st.files {
      var st1 := Closed(Opened(st, t.value), f);
      assert EntryS(st1, t.value, DOT, t.value).opens == st1.opens;
    }
  }

  /** The new working directory replaces the old one, which is closed. */
  ghost function SwitchS(st: State, cwd: Option<Sector>, d: Sector): (r: (bool, Option<Sector>, State))
    requires Ok(st) && (cwd.Some? ==> cwd.value in st.opens)
  {
    if cwd.None? then (true, Some(d), st) else (true, Some(d), Closed(st, cwd.value))
  }

  /** The thread holds its own reference on its working directory, apart
      from the one on the directory at f. */
  ghost predicate CwdHeld(st: State, cwd: Option<Sector>, f: Sector)
  {
    cwd.Some? ==> Count(st, cwd.value) > (if cwd.value == f then 1 else 0)
  }

  /** The rest of filesys_chdir once the path has opened the directory at
      f: with look, the lookup of name and dir_open of what it finds, else
      f itself; then the switch. */
  ghost function ChdirFromS(st: State, cwd: Option<Sector>, f: Sector, name: seq<byte>, look: bool)
    : (r: (bool, Option<Sector>, State))
    requires Ok(st) && f in st.opens && CwdHeld(st, cwd, f)
  {
    if !look then SwitchS(st, cwd, f)
    else
      var e := EnterS(st, f, name);
      if e.0.None? then (false, cwd, e.1)
      else
        if cwd.Some? then
          EnterCount(st, f, name, cwd.value);
          SwitchS(e.1, cwd, e.0.value)
        else SwitchS(e.1, cwd, e.0.value)
  }

  /** The directory dir_open_with_path returns holds a reference apart
      from the thread's. */
  lemma PathHeld(st: State, cwd: Option<Sector>, path: seq<byte>)
    requires Ok(st) && (cwd.Some? ==> cwd.value in st.opens)
    ensures var p := PathS(st, cwd, path);
      && (cwd.Some? ==> cwd.value in p.1.opens)
      && (p.0.Some? ==> CwdHeld(p.1, cwd, p.0.value))
  {
    if cwd.Some? {
      PathCount(st, cwd, path, cwd.value);
    }
  }

  /** filesys_chdir as written: the result, the new working directory and
      the state. It looks the last component up whenever the path is not
      empty, so it fails on a path like "/" that ends in a slash. */
  ghost function ChdirAsWrittenS(st: State, cwd: Option<Sector>, path: seq<byte>): (r: (bool, Option<Sector>, State))
    requires Ok(st) && (cwd.Some? ==> cwd.value in st.opens)
  {
    var p := PathS(st, cwd, path);
    if p.0.None? then (false, cwd, p.1)
    else
      PathHeld(st, cwd, path);
      ChdirFromS(p.1, cwd, p.0.value, Parse(path).1, path != [])
  }

  /** filesys_chdir corrected to test the last component, as filesys_open
      does: an empty one makes the directory reached itself the working
      directory. */
  ghost function ChdirS(st: State, cwd: Option<Sector>, path: seq<byte>): (r: (bool, Option<Sector>, State))
    requires Ok(st) && (cwd.Some? ==> cwd.value in st.opens)
  {
    var p := PathS(st, cwd, path);
    if p.0.None? then (false, cwd, p.1)
    else
      PathHeld(st, cwd, path);
      ChdirFromS(p.1, cwd, p.0.value, Parse(path).1, Parse(path).1 != [])
  }

  /** chdir ("/") as written fails when the root is a directory: it
      looks up the empty name, which no directory holds. */
  lemma ChdirRootFails(st: State, cwd: Option<Sector>)
    requires Ok(st) && (cwd.Some? ==> cwd.value in st.opens)
    requires ROOT_DIR_SECTOR in st.dirs && EntryR(st, ROOT_DIR_SECTOR, DOT) >= 0 && ROOT_DIR_SECTOR !in st.removed
    ensures !ChdirAsWrittenS(st, cwd, [SLASH]).0
  {
    PathRoot(st, cwd);
    PathHeld(st, cwd, [SLASH]);
    var p := PathS(st, cwd, [SLASH]);
    LookEmptyFails(p.1, cwd, ROOT_DIR_SECTOR);
  }

  /** Looking up the empty name in a directory finds nothing. */
  lemma LookEmptyFails(st: State, cwd: Option<Sector>, f: Sector)
    requires Ok(st) && f in st.opens && f in st.dirs && CwdHeld(st, cwd, f)
    ensures !ChdirFromS(st, cwd, f, [], true).0
  {
    assert !Holds(st.files[f], []);
  }

  /** chdir ("/") corrected makes the root the working directory. */
  lemma ChdirRoot(st: State, cwd: Option<Sector>)
    requires Ok(st) && (cwd.Some? ==> cwd.value in st.opens)
    requires ROOT_DIR_SECTOR in st.files && EntryR(st, ROOT_DIR_SECTOR, DOT) >= 0 && ROOT_DIR_SECTOR !in st.removed
    ensures ChdirS(st, cwd, [SLASH]).0 && ChdirS(st, cwd, [SLASH]).1 == Some(ROOT_DIR_SECTOR)
  {
    PathRoot(st, cwd);
    PathHeld(st, cwd, [SLASH]);
  }

  /** The last step of chdir leaks no reference. */
  lemma ChdirFromCount(st: State, cwd: Option<Sector>, f: Sector, name: seq<byte>, look: bool, s: Sector)
    requires Ok(st) && f in st.opens && CwdHeld(st, cwd, f)
    ensures var r := ChdirFromS(st, cwd, f, name, look);
      && (r.0 ==> Count(r.2, s) == Count(st, s) - (if s == f then 1 else 0) - (if cwd == Some(s) then 1 else 0)
                                   + (if r.1 == Some(s) then 1 else 0))
      && (!r.0 ==> r.1 == cwd && Count(r.2, s) == Count(st, s) - (if s == f then 1 else 0))
  {
    if look {
      EnterCount(st, f, name, s);
    }
  }

  /** chdir leaks no reference: on success the old working directory
      loses the thread's reference and the new one holds it; on failure
      every count is as it was. */
  lemma ChdirCount(st: State, cwd: Option<Sector>, path: seq<byte>, s: Sector)
    requires Ok(st) && (cwd.Some? ==> cwd.value in st.opens)
    ensures var r := ChdirS(st, cwd, path);
      && (r.0 ==> Count(r.2, s) == Count(st, s) - (if cwd == Some(s) then 1 else 0) + (if r.1 == Some(s) then 1 else 0))
      && (!r.0 ==> r.1 == cwd && Count(r.2, s) == Count(st, s))
  {
    var p := PathS(st, cwd, path);
    PathCount(st, cwd, path, s);
    if p.0.Some? {
      PathHeld(st, cwd, path);
      ChdirFromCount(p.1, cwd, p.0.value, Parse(path).1, Parse(path).1 != [], s);
    }
  }

  /** filesys_chdir as written. */
  method ChdirAsWritten(v: Volume, th: Thread, path: seq<byte>) returns (ok: bool)
    requires v.Valid() && CwdOpen(v, th)
    modifies v, th
    ensures v.Valid() && CwdOpen(v, th)
    ensures (ok, Cwd(th), v.St()) == ChdirAsWrittenS(old(v.St()), old(Cwd(th)), path)
    ensures !ok ==> th.cwd == old(th.cwd)
  {
    ghost var st0 := v.St();
    var d, name := OpenWithPath(v, th, path);
    PathHeld(st0, Cwd(th), path);
    if d == null {
      return false;
    }
    ok := ChdirFrom(v, th, d, name, |path| > 0);
  }

  /** filesys_chdir, testing the length of the last component. */
  method Chdir(v: Volume, th: Thread, path: seq<byte>) returns (ok: bool)
    requires v.Valid() && CwdOpen(v, th)
    modifies v, th
    ensures v.Valid() && CwdOpen(v, th)
    ensures (ok, Cwd(th), v.St()) == ChdirS(old(v.St()), old(Cwd(th)), path)
    ensures !ok ==> th.cwd == old(th.cwd)
  {
    ghost var st0 := v.St();
    var d, name := OpenWithPath(v, th, path);
    PathHeld(st0, Cwd(th), path);
    if d == null {
      return false;
    }
    ok := ChdirFrom(v, th, d, name, |name| > 0);
  }

  /** The rest of filesys_chdir in the open directory d. */
  method ChdirFrom(v: Volume, th: Thread, d: Dir, name: seq<byte>, look: bool) returns (ok: bool)
    requires v.Valid() && CwdOpen(v, th) && d.inode in v.opens && CwdHeld(v.St(), Cwd(th), d.inode)
    modifies v, th
    ensures v.Valid() && CwdOpen(v, th)
    ensures (ok, Cwd(th), v.St()) == ChdirFromS(old(v.St()), old(Cwd(th)), d.inode, name, look)
    ensures !ok ==> th.cwd == old(th.cwd)
  {
    ghost var st0 := v.St();
    var next := d;
    if look {
      next := Enter(v, d, name);
      if next == null {
        return false;
      }
      if th.cwd != null {
        EnterCount(st0, d.inode, name, th.cwd.inode);
      }
    }
    ok := Switch(v, th, next);
  }

  /** The lookup of filesys_chdir: the directory d closed, and the one
      its entry name leads to opened. */
  method Enter(v: Volume, d: Dir, name: seq<byte>) returns (next: Dir?)
    requires v.Valid() && d.inode in v.opens
    modifies v
    ensures v.Valid()
    ensures var e := EnterS(old(v.St()), d.inode, name);
      && (next != null <==> e.0.Some?) && (next != null ==> Some(next.inode) == e.0) && v.St() == e.1
  {
    ghost var st0 := v.St();
    var inode := DirLookup(v, d, name);
    DirClose(v, d);
    if inode.Some? {
      OpenedOk(st0, inode.value);
      ClosedFrees(Opened(st0, inode.value), d.inode);
    }
    next := DirOpen(v, inode);
  }

  /** The end of filesys_chdir: the old working directory closed and d
      recorded in its place. */
  method Switch(v: Volume, th: Thread, d: Dir) returns (ok: bool)
    requires v.Valid() && CwdOpen(v, th) && d.inode in v.opens && CwdHeld(v.St(), Cwd(th), d.inode)
    modifies v, th
    ensures v.Valid() && CwdOpen(v, th)
    ensures (ok, Cwd(th), v.St()) == SwitchS(old(v.St()), old(Cwd(th)), d.inode)
  {
    DirClose(v, th.cwd);
    th.cwd := d;
    return true;
  }
}
