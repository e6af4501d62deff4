/** Argument passing and the child-process records of project 2
    (userprog/process.c: parse_args, process_thread_init, process_create,
    get_child_process, process_wait). A C string is the sequence of its
    bytes before the terminating NUL; the user stack is the stack pointer
    and the bytes between it and the stack pointer parse_args started
    from. */
module Process {
  import opened Wrappers
  import opened Bytes
  import Elf

  const SPACE: byte := 32

  // ---------------------------------------------------------------------
  // Tokens

  /** The leading run of non-space bytes of s. */
  function Run(s: seq<byte>): (w: seq<byte>)
    ensures |w| <= |s| && w == s[..|w|]
    ensures forall k :: 0 <= k < |w| ==> w[k] != SPACE
    ensures |w| < |s| ==> s[|w|] == SPACE
  {
    if s == [] || s[0] == SPACE then [] else [s[0]] + Run(s[1..])
  }

  /** The words of s: its maximal runs of non-space bytes, in order. */
  function Tokens(s: seq<byte>): (ts: seq<seq<byte>>)
    ensures forall i :: 0 <= i < |ts| ==> Word(ts[i])
    decreases |s|
  {
    if s == [] then []
    else if s[0] == SPACE then Tokens(s[1..])
    else var w := Run(s); [w] + Tokens(s[|w|..])
  }

  /** A token: non-empty and free of spaces. */
  predicate Word(t: seq<byte>)
  {
    t != [] && forall k :: 0 <= k < |t| ==> t[k] != SPACE
  }

  /** Words separated by single spaces: the command line the tokens of
      which are ts. */
  function Join(ts: seq<seq<byte>>): seq<byte>
  {
    if ts == [] then [] else if |ts| == 1 then ts[0] else ts[0] + [SPACE] + Join(ts[1..])
  }

  /** strtok_r (lib/string.c) with the delimiter set " ": skips spaces;
      None when nothing else is left, otherwise the next token and what
      follows the space ending it (the terminator, at the end). */
  function StrTok(s: seq<byte>): (r: Option<(seq<byte>, seq<byte>)>)
    ensures r.None? <==> Tokens(s) == []
    ensures r.Some? ==> Tokens(s) == [r.value.0] + Tokens(r.value.1) && |r.value.1| < |s|
    decreases |s|
  {
    if s == [] then None
    else if s[0] == SPACE then StrTok(s[1..])
    else
      var w := Run(s);
      if |w| < |s| then
        assert s[|w|..][1..] == s[|w| + 1..];
        Some((w, s[|w| + 1..]))
      else Some((w, s[|w|..]))
  }

  /** A space in front of the rest does not change the tokens. */
  lemma TokensSkipSpace(s: seq<byte>, c: nat)
    requires c < |s| && s[c] == SPACE
    ensures Tokens(s[c..]) == Tokens(s[c + 1..])
  {
    assert s[c..][1..] == s[c + 1..];
  }

  /** A maximal run of non-space bytes from c0 to c is the first token. */
  lemma TokensSkipRun(s: seq<byte>, c0: nat, c: nat)
    requires c0 < c <= |s|
    requires forall k :: c0 <= k < c ==> s[k] != SPACE
    requires c == |s| || s[c] == SPACE
    ensures Tokens(s[c0..]) == [s[c0..c]] + Tokens(s[c..])
  {
    var t := s[c0..];
    RunIs(t, c - c0);
    assert t[..c - c0] == s[c0..c];
    assert t[c - c0..] == s[c..];
    assert t != [] && t[0] != SPACE;
  }

  /** The leading run is the prefix up to the first space. */
  lemma {:induction false} RunIs(t: seq<byte>, n: nat)
    requires n <= |t|
    requires forall k :: 0 <= k < n ==> t[k] != SPACE
    requires n == |t| || t[n] == SPACE
    ensures Run(t) == t[..n]
  {
    if n > 0 {
      RunIs(t[1..], n - 1);
      assert t[..n] == [t[0]] + t[1..][..n - 1];
    }
  }

  /** The counting loop of parse_args: one for the program name and one
      for each word of the rest of the command line. */
  method CountArgs(s: seq<byte>) returns (argc: int)
    ensures argc == 1 + |Tokens(s)|
  {
    argc := 1;
    var c := 0;
    while true
      invariant 0 <= c <= |s|
      invariant argc + |Tokens(s[c..])| == 1 + |Tokens(s)|
      decreases |s| - c
    {
      while c < |s| && s[c] == SPACE
        invariant 0 <= c <= |s|
        invariant argc + |Tokens(s[c..])| == 1 + |Tokens(s)|
      {
        TokensSkipSpace(s, c);
        c := c + 1;
      }
      if c == |s| {
        break;
      }
      argc := argc + 1;
      var c0 := c;
      while c < |s| && s[c] != SPACE
        invariant c0 <= c <= |s|
        invariant forall k :: c0 <= k < c ==> s[k] != SPACE
      {
        c := c + 1;
      }
      TokensSkipRun(s, c0, c);
    }
  }

  /** The loop that fills argv: the program name, then strtok_r's tokens
      of the rest. Given the count of CountArgs, every store is inside
      argv and all of it is filled, which is what parse_args asserts. */
  method CollectArgs(name: seq<byte>, rest: seq<byte>, argc: int) returns (argv: array<seq<byte>>)
    requires argc == 1 + |Tokens(rest)|
    ensures fresh(argv)
    ensures argv[..] == [name] + Tokens(rest)
  {
    argv := new seq<byte>[argc](_ => []);
    var len := 0;
    var arg: Option<seq<byte>> := Some(name);
    var save := rest;
    while arg.Some?
      invariant 0 <= len <= argc
      invariant arg.Some? ==> argv[..len] + [arg.value] + Tokens(save) == [name] + Tokens(rest)
      invariant arg.None? ==> argv[..len] == [name] + Tokens(rest)
      decreases |save| + (if arg.Some? then 1 else 0)
    {
      argv[len] := arg.value;
      len := len + 1;
      match StrTok(save) {
        case None =>
          arg := None;
        case Some(next) =>
          arg := Some(next.0);
          save := next.1;
      }
    }
    assert argv[..] == argv[..len];
  }

  /** Tokens of a joined list of words give the words back. */
  lemma {:induction false} TokensJoin(ts: seq<seq<byte>>)
    requires forall i :: 0 <= i < |ts| ==> Word(ts[i])
    ensures Tokens(Join(ts)) == ts
  {
    if |ts| == 1 {
      TokensSkipRun(ts[0], 0, |ts[0]|);
      assert ts[0][0..] == ts[0] && ts[0][0..|ts[0]|] == ts[0] && ts[0][|ts[0]|..] == [];
      assert Tokens([]) == [];
    } else if |ts| > 1 {
      var s := Join(ts);
      var t := ts[0];
      assert s[..|t|] == t && s[|t|] == SPACE;
      TokensSkipRun(s, 0, |t|);
      assert s[0..] == s;
      TokensSkipSpace(s, |t|);
      assert s[|t| + 1..] == Join(ts[1..]);
      TokensJoin(ts[1..]);
    }
  }

  // ---------------------------------------------------------------------
  // The user stack

  /** 2^32: addresses and the words pushed are 32 bits wide. */
  const WORD_LIMIT: int := 0x1_0000_0000

  /** A 32-bit word as it sits in memory: value modulo 2^32, least
      significant byte first. */
  function WordBytes(v: int): (b: seq<byte>)
    ensures |b| == 4
  {
    Elf.Encode(v % WORD_LIMIT, 4)
  }

  /** Reading the word back gives the value modulo 2^32. */
  lemma ReadWordBytes(v: int)
    ensures Elf.LittleEndian(WordBytes(v)) == v % WORD_LIMIT
  {
    assert Elf.Pow256(4) == WORD_LIMIT;
    Elf.DecodeEncode(v % WORD_LIMIT, 4);
  }

  /** A value in the 32-bit range reads back as itself. */
  lemma ReadSmallWord(v: int)
    requires 0 <= v < WORD_LIMIT
    ensures Elf.LittleEndian(WordBytes(v)) == v
  {
    ReadWordBytes(v);
  }

  /** The NUL-terminated copies of argv[0], ..., argv[n-1], from low
      address to high. */
  function Strings(argv: seq<seq<byte>>): seq<byte>
  {
    if argv == [] then [] else argv[0] + [0] + Strings(argv[1..])
  }

  /** Words of addrs[0], ..., addrs[n-1], from low address to high. */
  function Words(addrs: seq<int>): (b: seq<byte>)
    ensures |b| == 4 * |addrs|
  {
    if addrs == [] then [] else WordBytes(addrs[0]) + Words(addrs[1..])
  }

  /** Where the copy of argv[i] starts when the strings end at esp0. */
  function StringAddr(argv: seq<seq<byte>>, esp0: int, i: nat): int
    requires i <= |argv|
  {
    esp0 - |Strings(argv[i..])|
  }

  /** The addresses of all the copies. */
  function StringAddrs(argv: seq<seq<byte>>, esp0: int): (a: seq<int>)
    ensures |a| == |argv|
  {
    seq(|argv|, i requires 0 <= i < |argv| => StringAddr(argv, esp0, i))
  }

  /** The bytes parse_args places below the stack pointer esp0, from the
      new stack pointer upward: the NULL return address, argc, argv, the
      argv[] table ending in NULL, the alignment padding and the strings. */
  function ArgImage(argv: seq<seq<byte>>, esp0: int): seq<byte>
  {
    var strs := Strings(argv);
    var pad := (esp0 - |strs|) % 4;
    var table := esp0 - |strs| - pad - 4 * (|argv| + 1);
    Stacked(WordBytes(0), WordBytes(|argv|), WordBytes(table),
      Words(StringAddrs(argv, esp0)), WordBytes(0), Zeros(pad), strs)
  }

  /** Pieces laid out from low address to high. */
  function Stacked(w0: seq<byte>, w1: seq<byte>, w2: seq<byte>, t: seq<byte>, w3: seq<byte>, z: seq<byte>, strs: seq<byte>): seq<byte>
  {
    w0 + (w1 + (w2 + (t + (w3 + (z + strs)))))
  }

  /** The user stack: the stack pointer and the bytes pushed since it was
      top. */
  class ArgStack {
    var esp: int
    /** The bytes from esp up to top. */
    var content: seq<byte>
    ghost const top: int

    ghost predicate Valid()
      reads this
    {
      esp + |content| == top
    }

    /** An empty stack at the stack pointer setup_stack gives. */
    constructor (esp0: int)
      ensures Valid() && esp == esp0 && content == []
    {
      esp := esp0;
      content := [];
      top := esp0;
    }

    /** Moves esp down by |b| and stores b there. */
    method Push(b: seq<byte>)
      requires Valid()
      modifies this
      ensures Valid() && esp == old(esp) - |b| && content == b + old(content)
    {
      esp := esp - |b|;
      content := b + content;
    }
  }

  /** Strings of argv[i-1..] is argv[i-1], its NUL, and the rest. */
  lemma StringsFrom(argv: seq<seq<byte>>, i: nat)
    requires 0 < i <= |argv|
    ensures Strings(argv[i - 1..]) == argv[i - 1] + [0] + Strings(argv[i..])
  {
    assert argv[i - 1..][1..] == argv[i..];
  }

  /** Words of addrs[i-1..] is the word of addrs[i-1] and the rest. */
  lemma WordsFrom(addrs: seq<int>, i: nat)
    requires 0 < i <= |addrs|
    ensures Words(addrs[i - 1..]) == WordBytes(addrs[i - 1]) + Words(addrs[i..])
  {
    assert addrs[i - 1..][1..] == addrs[i..];
  }

  /** The first loop of the stack layout: copies argv[argc-1] down to
      argv[0] with their terminators and records where each went. */
  method PushStrings(stack: ArgStack, argv: array<seq<byte>>) returns (addrs: array<int>)
    requires stack.Valid()
    modifies stack
    ensures stack.Valid() && fresh(addrs)
    ensures stack.content == Strings(argv[..]) + old(stack.content)
    ensures addrs[..] == StringAddrs(argv[..], old(stack.esp))
  {
    ghost var esp0 := stack.esp;
    ghost var c0 := stack.content;
    addrs := new int[argv.Length];
    var i := argv.Length;
    while i > 0
      invariant 0 <= i <= argv.Length
      invariant stack.Valid()
      invariant stack.content == Strings(argv[i..]) + c0
      invariant forall k :: i <= k < argv.Length ==> addrs[k] == StringAddr(argv[..], esp0, k)
    {
      StringsFrom(argv[..], i);
      assert argv[..][i - 1..] == argv[i - 1..] && argv[..][i..] == argv[i..];
      stack.Push(argv[i - 1] + [0]);
      i := i - 1;
      addrs[i] := stack.esp;
    }
    assert argv[..] == argv[0..];
  }

  /** Remainders modulo 4 while the padding is pushed. */
  lemma PadFacts(e: int, k: int)
    requires 0 <= k <= e % 4
    ensures (e - k) % 4 == 0 <==> k == e % 4
  {
  }

  /** The word-alignment loop: zero bytes until esp is a multiple of 4. */
  method AlignStack(stack: ArgStack)
    requires stack.Valid()
    modifies stack
    ensures stack.Valid() && stack.esp % 4 == 0
    ensures stack.content == Zeros(old(stack.esp) % 4) + old(stack.content)
  {
    ghost var esp0 := stack.esp;
    ghost var k := 0;
    PadFacts(esp0, 0);
    while stack.esp % 4 != 0
      invariant 0 <= k <= esp0 % 4 && stack.esp == esp0 - k
      invariant (stack.esp % 4 == 0 <==> k == esp0 % 4)
      invariant stack.Valid() && stack.content == Zeros(k) + old(stack.content)
      decreases esp0 % 4 - k
    {
      assert [0] + Zeros(k) == Zeros(k + 1);
      stack.Push([0]);
      k := k + 1;
      PadFacts(esp0, k);
    }
  }

  /** The loop that pushes the argv[] table: args_addr[argc-1] down to
      args_addr[0]. */
  method PushPointers(stack: ArgStack, addrs: array<int>)
    requires stack.Valid()
    modifies stack
    ensures stack.Valid()
    ensures stack.content == Words(addrs[..]) + old(stack.content)
  {
    ghost var c0 := stack.content;
    var i := addrs.Length;
    while i > 0
      invariant 0 <= i <= addrs.Length
      invariant stack.Valid() && stack.content == Words(addrs[i..]) + c0
    {
      WordsFrom(addrs[..], i);
      assert addrs[..][i - 1..] == addrs[i - 1..] && addrs[..][i..] == addrs[i..];
      stack.Push(WordBytes(addrs[i - 1]));
      i := i - 1;
    }
    assert addrs[..] == addrs[0..];
  }

  /** parse_args: name is the program name strtok_r cut off the command
      line, rest what follows it. The stack receives the image of the
      arguments right below where it was. */
  method ParseArgs(stack: ArgStack, name: seq<byte>, rest: seq<byte>)
    requires stack.Valid()
    modifies stack
    ensures stack.Valid()
    ensures stack.content == ArgImage([name] + Tokens(rest), old(stack.esp)) + old(stack.content)
  {
    ghost var esp0 := stack.esp;
    ghost var c0 := stack.content;
    ghost var args := [name] + Tokens(rest);
    var argc := CountArgs(rest);
    var argv := CollectArgs(name, rest, argc);
    var addrs := PushStrings(stack, argv);
    ghost var strs := Strings(args);
    ghost var pad := (esp0 - |strs|) % 4;
    AlignStack(stack);
    stack.Push(WordBytes(0));
    PushPointers(stack, addrs);
    var start := stack.esp;
    stack.Push(WordBytes(start));
    stack.Push(WordBytes(argc));
    stack.Push(WordBytes(0));
    ImageParts(args, esp0, start, c0, stack.content);
  }

  /** The pushes of parse_args, in order, build the image. */
  lemma {:induction false} ImageParts(args: seq<seq<byte>>, esp0: int, start: int, c0: seq<byte>, c: seq<byte>)
    requires var strs := Strings(args); var pad := (esp0 - |strs|) % 4;
      && start == esp0 - |strs| - pad - 4 * (|args| + 1)
      && c == WordBytes(0) + (WordBytes(|args|) + (WordBytes(start) + (Words(StringAddrs(args, esp0))
        + (WordBytes(0) + (Zeros(pad) + (strs + c0))))))
    ensures c == ArgImage(args, esp0) + c0
  {
    var strs := Strings(args);
    var pad := (esp0 - |strs|) % 4;
    var f := Zeros(pad) + strs;
    Assoc(Zeros(pad), strs, c0);
    var e := WordBytes(0) + f;
    Assoc(WordBytes(0), f, c0);
    var d := Words(StringAddrs(args, esp0)) + e;
    Assoc(Words(StringAddrs(args, esp0)), e, c0);
    var b := WordBytes(start) + d;
    Assoc(WordBytes(start), d, c0);
    var a := WordBytes(|args|) + b;
    Assoc(WordBytes(|args|), b, c0);
    Assoc(WordBytes(0), a, c0);
  }

  lemma Assoc(a: seq<byte>, b: seq<byte>, c: seq<byte>)
    ensures (a + b) + c == a + (b + c)
  {
  }

  // ---------------------------------------------------------------------
  // What the user program finds on its stack

  /** The 32-bit word stored at offset off of b. */
  function ReadWord(b: seq<byte>, off: nat): nat
    requires off + 4 <= |b|
  {
    Elf.LittleEndian(b[off..off + 4])
  }

  lemma SliceLeftOf(x: seq<byte>, y: seq<byte>, lo: nat, hi: nat)
    requires lo <= hi <= |x|
    ensures (x + y)[lo..hi] == x[lo..hi]
  {
  }

  lemma SliceRightOf(x: seq<byte>, y: seq<byte>, lo: nat, hi: nat)
    requires lo <= hi <= |y|
    ensures (x + y)[|x| + lo..|x| + hi] == y[lo..hi]
  {
  }

  /** Word i of a table of words. */
  lemma {:induction false} WordsAt(addrs: seq<int>, i: nat)
    requires i < |addrs|
    ensures Words(addrs)[4 * i..4 * i + 4] == WordBytes(addrs[i])
  {
    if i > 0 {
      WordsAt(addrs[1..], i - 1);
      SliceRightOf(WordBytes(addrs[0]), Words(addrs[1..]), 4 * (i - 1), 4 * (i - 1) + 4);
    } else {
      SliceLeftOf(WordBytes(addrs[0]), Words(addrs[1..]), 0, 4);
      assert WordBytes(addrs[0])[0..4] == WordBytes(addrs[0]);
    }
  }

  /** The copy of argv[i] with its terminator starts where the strings of
      argv[i..] start. */
  lemma {:induction false} StringsAt(argv: seq<seq<byte>>, i: nat)
    requires i < |argv|
    ensures var off := |Strings(argv)| - |Strings(argv[i..])|;
      0 <= off && off + |argv[i]| + 1 <= |Strings(argv)|
      && Strings(argv)[off..off + |argv[i]| + 1] == argv[i] + [0]
  {
    var head := argv[0] + [0];
    if i == 0 {
      assert argv[0..] == argv;
      SliceLeftOf(head, Strings(argv[1..]), 0, |head|);
      assert head[0..|head|] == head;
    } else {
      StringsAt(argv[1..], i - 1);
      assert argv[1..][i - 1..] == argv[i..];
      var off' := |Strings(argv[1..])| - |Strings(argv[i..])|;
      SliceRightOf(head, Strings(argv[1..]), off', off' + |argv[i]| + 1);
    }
  }

  /** Offsets in a sequence made of four words, a table and two more
      pieces. */
  lemma Layout(w0: seq<byte>, w1: seq<byte>, w2: seq<byte>, t: seq<byte>, w3: seq<byte>, z: seq<byte>, strs: seq<byte>)
    requires |w0| == 4 && |w1| == 4 && |w2| == 4 && |w3| == 4
    ensures var img := Stacked(w0, w1, w2, t, w3, z, strs);
      && |img| == 16 + |t| + |z| + |strs|
      && img[0..4] == w0 && img[4..8] == w1 && img[8..12] == w2
      && img[12..12 + |t|] == t && img[12 + |t|..16 + |t|] == w3
      && img[16 + |t| + |z|..] == strs
  {
    var f := z + strs;
    var e := w3 + f;
    var d := t + e;
    var c := w2 + d;
    var b := w1 + c;
    var img := w0 + b;
    assert img[4..] == b && b[4..] == c && c[4..] == d;
    assert img[12..] == d && d[|t|..] == e && e[4..] == f;
    assert img[12 + |t|..] == e;
    assert img[16 + |t|..] == f;
  }

  /** The pieces of the image at their offsets. */
  lemma {:induction false} ImageSlices(args: seq<seq<byte>>, esp0: int)
    ensures var img := ArgImage(args, esp0); var n := |args|; var strs := Strings(args);
      var pad := (esp0 - |strs|) % 4;
      && |img| == 16 + 4 * n + pad + |strs|
      && img[0..4] == WordBytes(0) && img[4..8] == WordBytes(n)
      && img[8..12] == WordBytes(esp0 - |strs| - pad - 4 * (n + 1))
      && img[12..12 + 4 * n] == Words(StringAddrs(args, esp0))
      && img[12 + 4 * n..16 + 4 * n] == WordBytes(0)
      && img[16 + 4 * n + pad..] == strs
  {
    var strs := Strings(args);
    var pad := (esp0 - |strs|) % 4;
    var t := Words(StringAddrs(args, esp0));
    assert |t| == 4 * |args|;
    var w2 := WordBytes(esp0 - |strs| - pad - 4 * (|args| + 1));
    var img := ArgImage(args, esp0);
    assert img == Stacked(WordBytes(0), WordBytes(|args|), w2, t, WordBytes(0), Zeros(pad), strs);
    Layout(WordBytes(0), WordBytes(|args|), w2, t, WordBytes(0), Zeros(pad), strs);
    assert |img| == 16 + 4 * |args| + pad + |strs|;
    assert img[0..4] == WordBytes(0);
    assert img[4..8] == WordBytes(|args|);
    assert img[8..12] == w2;
    assert img[12..12 + 4 * |args|] == t;
    assert img[12 + 4 * |args|..16 + 4 * |args|] == WordBytes(0);
    assert img[16 + 4 * |args| + pad..] == strs;
  }

  /** Taking off the remainder and whole words leaves a multiple of 4. */
  lemma AlignedDown(x: int, k: nat)
    ensures (x - x % 4 - 4 * k) % 4 == 0
  {
  }

  /** parse_args leaves the stack pointer word aligned. */
  lemma {:induction false} ArgImageAligned(args: seq<seq<byte>>, esp0: int)
    ensures (esp0 - |ArgImage(args, esp0)|) % 4 == 0
  {
    var strs := Strings(args);
    ImageSlices(args, esp0);
    AlignedDown(esp0 - |strs|, |args| + 4);
  }

  /** The first three words: the NULL return address, argc and argv,
      which points at the table 12 bytes above esp. */
  lemma {:induction false} ArgHeader(args: seq<seq<byte>>, esp0: int)
    requires var esp := esp0 - |ArgImage(args, esp0)|; 0 <= esp && esp0 <= WORD_LIMIT
    ensures var img := ArgImage(args, esp0); var esp := esp0 - |img|;
      && |img| >= 16 + 4 * |args|
      && ReadWord(img, 0) == 0 && ReadWord(img, 4) == |args|
      && ReadWord(img, 8) == esp + 12
      && ReadWord(img, 12 + 4 * |args|) == 0
  {
    var img := ArgImage(args, esp0);
    var n := |args|;
    var strs := Strings(args);
    var pad := (esp0 - |strs|) % 4;
    var table := esp0 - |strs| - pad - 4 * (n + 1);
    ImageSlices(args, esp0);
    assert table == esp0 - |img| + 12;
    ReadSmallWord(0);
    ReadSmallWord(n);
    ReadSmallWord(table);
    assert ReadWord(img, 0) == 0;
    assert ReadWord(img, 4) == n;
    assert ReadWord(img, 8) == table;
    assert ReadWord(img, 12 + 4 * n) == 0;
  }

  /** argv[i] points at a NUL-terminated copy of the i-th argument. */
  lemma {:induction false} ArgPointer(args: seq<seq<byte>>, esp0: int, i: nat)
    requires i < |args|
    requires var esp := esp0 - |ArgImage(args, esp0)|; 0 <= esp && esp0 <= WORD_LIMIT
    ensures var img := ArgImage(args, esp0); var esp := esp0 - |img|;
      var a := ReadWord(img, 12 + 4 * i);
      && esp <= a && a - esp + |args[i]| + 1 <= |img|
      && img[a - esp..a - esp + |args[i]| + 1] == args[i] + [0]
  {
    ArgWord(args, esp0, i);
    ArgString(args, esp0, i);
  }

  /** Where argv[i] points: the i-th string, past the table and the
      padding. */
  lemma {:induction false} ArgWord(args: seq<seq<byte>>, esp0: int, i: nat)
    requires i < |args|
    requires var esp := esp0 - |ArgImage(args, esp0)|; 0 <= esp && esp0 <= WORD_LIMIT
    ensures var img := ArgImage(args, esp0); var strs := Strings(args);
      ReadWord(img, 12 + 4 * i)
        == esp0 - |img| + 16 + 4 * |args| + (esp0 - |strs|) % 4 + |strs| - |Strings(args[i..])|
  {
    var img := ArgImage(args, esp0);
    var n := |args|;
    var addrs := StringAddrs(args, esp0);
    ImageSlices(args, esp0);
    TableEntry(img[12..12 + 4 * n], addrs, i);
    assert img[12 + 4 * i..12 + 4 * i + 4] == img[12..12 + 4 * n][4 * i..4 * i + 4];
    StringsAt(args, i);
    ReadSmallWord(addrs[i]);
  }

  /** The i-th string in the image, at its offset past the table and the
      padding. */
  lemma {:induction false} ArgString(args: seq<seq<byte>>, esp0: int, i: nat)
    requires i < |args|
    ensures var img := ArgImage(args, esp0); var strs := Strings(args);
      var at := 16 + 4 * |args| + (esp0 - |strs|) % 4 + |strs| - |Strings(args[i..])|;
      0 <= at && at + |args[i]| + 1 <= |img| && img[at..at + |args[i]| + 1] == args[i] + [0]
  {
    ImageStrings(args, esp0);
    StringInImage(ArgImage(args, esp0), 16 + 4 * |args| + (esp0 - |Strings(args)|) % 4, args, i);
  }

  /** The i-th string, in an image that ends with the strings. */
  lemma StringInImage(img: seq<byte>, base: nat, args: seq<seq<byte>>, i: nat)
    requires i < |args| && base <= |img| && img[base..] == Strings(args)
    ensures var off := |Strings(args)| - |Strings(args[i..])|;
      0 <= off && base + off + |args[i]| + 1 <= |img| && img[base + off..base + off + |args[i]| + 1] == args[i] + [0]
  {
    StringsAt(args, i);
    StringCopy(img, base, Strings(args), |Strings(args)| - |Strings(args[i..])|, args[i] + [0]);
  }

  /** Entry i of the argv[] table. */
  lemma TableEntry(t: seq<byte>, addrs: seq<int>, i: nat)
    requires t == Words(addrs) && i < |addrs|
    ensures t[4 * i..4 * i + 4] == WordBytes(addrs[i])
  {
    WordsAt(addrs, i);
  }

  /** The strings close the image. */
  lemma ImageStrings(args: seq<seq<byte>>, esp0: int)
    ensures var img := ArgImage(args, esp0); var strs := Strings(args);
      var base := 16 + 4 * |args| + (esp0 - |strs|) % 4;
      base <= |img| && img[base..] == strs
  {
    ImageSlices(args, esp0);
  }

  /** A piece of the strings, found in the image at its offset. */
  lemma StringCopy(img: seq<byte>, base: nat, strs: seq<byte>, off: int, x: seq<byte>)
    requires base <= |img| && img[base..] == strs && 0 <= off && off + |x| <= |strs| && strs[off..off + |x|] == x
    ensures base + off + |x| <= |img| && img[base + off..base + off + |x|] == x
  {
    assert img[base + off..base + off + |x|] == img[base..][off..off + |x|];
  }


  // ---------------------------------------------------------------------
  // Child processes

  /** enum process_status (userprog/process.h), in declaration order. */
  datatype Status = Running | Exited | Init | Error

  /** struct process: what a parent keeps about a child, reachable after
      the child's thread is gone; its semaphores are not part of this
      model. */
  datatype ProcessRec = ProcessRec(pid: int, exitCode: int, status: Status)

  /** The exit code a child reports until it sets one: the code of a
      process the kernel kills. */
  const KILLED_EXIT_CODE: int := -1

  /** process_create: the record for thread tid, or None when malloc fails
      (mallocOk says whether it succeeds). */
  function ProcessCreate(tid: int, mallocOk: bool): (p: Option<ProcessRec>)
    ensures p.Some? <==> mallocOk
    ensures p.Some? ==> p.value.pid == tid && p.value.exitCode == KILLED_EXIT_CODE && p.value.status == Init
  {
    if mallocOk then Some(ProcessRec(tid, -1, Init)) else None
  }

  /** The position of the first child with that pid. */
  function FindChild(l: seq<ProcessRec>, pid: int): (r: Option<nat>)
    ensures r.None? <==> forall k :: 0 <= k < |l| ==> l[k].pid != pid
    ensures r.Some? ==>
      (r.value < |l| && l[r.value].pid == pid && forall k :: 0 <= k < r.value ==> l[k].pid != pid)
  {
    if l == [] then None
    else if l[0].pid == pid then Some(0)
    else match FindChild(l[1..], pid)
      case None => None
      case Some(j) => Some(j + 1)
  }

  /** get_child_process: walks the list from its front. */
  method GetChildProcess(l: seq<ProcessRec>, pid: int) returns (r: Option<nat>)
    ensures r == FindChild(l, pid)
  {
    var e := 0;
    while e < |l|
      invariant 0 <= e <= |l|
      invariant forall k :: 0 <= k < e ==> l[k].pid != pid
    {
      if l[e].pid == pid {
        return Some(e);
      }
      e := e + 1;
    }
    return None;
  }

  /** A child added at the end of a list without its pid is found there. */
  lemma {:induction false} FindAdded(l: seq<ProcessRec>, p: ProcessRec)
    requires FindChild(l, p.pid).None?
    ensures FindChild(l + [p], p.pid) == Some(|l|)
  {
    var r := FindChild(l + [p], p.pid);
    assert (l + [p])[|l|] == p;
    assert forall k :: 0 <= k < |l| ==> (l + [p])[k] == l[k];
  }

  /** No two children share a pid: thread ids are never reused. */
  ghost predicate DistinctPids(l: seq<ProcessRec>)
  {
    forall j, k :: 0 <= j < k < |l| ==> l[j].pid != l[k].pid
  }

  /** Removing one child from a list of distinct pids leaves none with its
      pid, and the rest distinct. */
  lemma RemoveChild(l: seq<ProcessRec>, i: nat)
    requires i < |l| && DistinctPids(l)
    ensures var l' := l[..i] + l[i + 1..];
      DistinctPids(l') && FindChild(l', l[i].pid).None?
      && forall k :: 0 <= k < |l'| ==> l'[k] in l
  {
    var l' := l[..i] + l[i + 1..];
    forall k | 0 <= k < |l'|
      ensures l'[k] == (if k < i then l[k] else l[k + 1])
    {
    }
  }

  /** The process fields of struct thread this model keeps: the children
      and the next file descriptor. */
  class ProcessThread {
    /** thread->child_list */
    var children: seq<ProcessRec>
    /** thread->fd: the descriptor the next open gets */
    var fd: int

    ghost predicate Valid()
      reads this
    {
      DistinctPids(children)
    }

    /** process_thread_init: no children, and descriptors from 2 on, since
        0 and 1 are the console. */
    constructor ()
      ensures Valid() && children == [] && fd == 2
    {
      children := [];
      fd := 2;
    }

    /** The list_push_back of process_execute: a new child at the end. */
    method AddChild(p: ProcessRec)
      requires Valid() && FindChild(children, p.pid).None?
      modifies this`children
      ensures Valid() && children == old(children) + [p]
    {
      children := children + [p];
    }

    /** process_wait: -1 for a pid that is not a child, leaving the list
        alone; otherwise the child's exit code, and the child leaves the
        list, so that waiting again gives -1. The wait for the child's
        exit is not part of this model: the list holds its records as they
        are when it has exited. */
    method Wait(pid: int) returns (code: int)
      requires Valid()
      modifies this`children
      ensures Valid()
      ensures FindChild(old(children), pid).None? ==> code == -1 && children == old(children)
      ensures FindChild(old(children), pid).Some? ==>
        (var i := FindChild(old(children), pid).value;
         code == old(children)[i].exitCode && children == old(children)[..i] + old(children)[i + 1..])
      ensures FindChild(children, pid).None?
    {
      var child := GetChildProcess(children, pid);
      if child.None? {
        return -1;
      }
      var i := child.value;
      RemoveChild(children, i);
      code := children[i].exitCode;
      children := children[..i] + children[i + 1..];
    }
  }
}
