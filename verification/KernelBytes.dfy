/** The byte buffers that the kernel side fills and user space reads back. */
module KernelBytes {
  import opened Wrappers
  import opened Collections
  import opened ByteTypes

  const MAX_ARGS: nat := 20
  const ARG_LEN: nat := 128
  const ARGS_LEN: nat := 2048
  const PATH_LEN: nat := 256
  const DENYLIST_ENTRIES: nat := 64

  predicate NulFree(s: Bytes) {
    0 !in s
  }

  function Cut(s: Bytes, n: nat): (r: Bytes)
    ensures |r| == if |s| < n then |s| else n
  {
    if |s| <= n then s else s[..n]
  }

  // ---------------------------------------------------------------- the string helpers' contract

  /** A pointer the kernel follows: the NUL-free string there, or a fault. */
  datatype Target = Fault | Str(text: Bytes)

  /** `bpf_probe_read_*_str`: on success copies at most `size - 1` bytes and a NUL and returns the count with the
      NUL; on a fault returns a negative number. Whatever else it was allowed to write may hold anything then. */
  method ReadStr(dst: array<byte>, off: nat, size: nat, src: Target) returns (ret: int)
    requires 0 < size && off + size <= dst.Length
    modifies dst
    ensures src.Fault? <==> ret < 0
    ensures src.Str? ==> ret == |Copied(src.text, size)| && dst[off..off + ret] == Copied(src.text, size)
    ensures dst[..off] == old(dst[..off]) && dst[off + size..] == old(dst[off + size..])
  {
    Scribble(dst, off, size);
    if src.Fault? {
      return -1;
    }
    hide Cut;
    var part := Copied(src.text, size);
    ghost var before := dst[..];
    for i := 0 to |part|
      invariant dst[off..off + i] == part[..i]
      invariant dst[..off] == before[..off] && dst[off + size..] == before[off + size..]
    {
      dst[off + i] := part[i];
      assert part[..i + 1] == part[..i] + [part[i]];
    }
    assert part[..|part|] == part;
    ret := |part|;
  }

  /** What a read into `size` bytes copies of a string. */
  function Copied(text: Bytes, size: nat): (r: Bytes)
    requires 0 < size
    ensures 0 < |r| <= size
  {
    Cut(text, size - 1) + [0]
  }

  /** Leaves anything in the `size` bytes from `off` on. */
  method Scribble(dst: array<byte>, off: nat, size: nat)
    requires off + size <= dst.Length
    modifies dst
    ensures dst[..off] == old(dst[..off]) && dst[off + size..] == old(dst[off + size..])
  {
    for i := 0 to size
      invariant forall k | 0 <= k < dst.Length && !(off <= k < off + size) :: dst[k] == old(dst[k])
    {
      dst[off + i] := *;
    }
  }

  // ---------------------------------------------------------------- packing the arguments

  /** The arguments as packed: each cut to 127 bytes and ended by a NUL. */
  function Packed(argv: seq<Bytes>): Bytes {
    if argv == [] then [] else Packed(argv[..|argv| - 1]) + Cut(argv[|argv| - 1], ARG_LEN - 1) + [0]
  }

  /** Argument `i` is captured: there is one, it can be read, and there was room for a longest one. */
  ghost predicate Takes(argv: seq<Target>, i: nat, taken: seq<Bytes>) {
    i < |argv| && i < MAX_ARGS && argv[i].Str? && |Packed(taken)| + ARG_LEN <= ARGS_LEN
  }

  /** `taken` is a prefix of `argv`, each of which was taken. */
  ghost predicate Taken(argv: seq<Target>, taken: seq<Bytes>) {
    && |taken| <= |argv| && |taken| <= MAX_ARGS
    && (forall i | 0 <= i < |taken| :: argv[i] == Str(taken[i]) && Takes(argv, i, taken[..i]))
  }

  /** `taken` is what the loop captures of `argv`: it goes on as long as the next argument is taken. */
  ghost predicate Captures(argv: seq<Target>, taken: seq<Bytes>) {
    Taken(argv, taken) && !Takes(argv, |taken|, taken)
  }

  /** The argv loop. `argv` ends where the pointer array has a null pointer or cannot be read. The buffer may hold
      anything to begin with. */
  method PackArgs(args: array<byte>, argv: seq<Target>) returns (argc: nat, argsLen: nat, ghost taken: seq<Bytes>)
    requires args.Length == 2048
    modifies args
    ensures Captures(argv, taken) && argc == |taken|
    ensures argsLen == |Packed(taken)| <= 2048
    ensures args[..argsLen] == Packed(taken)
    ensures forall k | argsLen + ARG_LEN <= k < ARGS_LEN :: args[k] == old(args[k])
  {
    argc := 0;
    var cursor := 0;
    taken := [];
    hide Cut;
    for i := 0 to MAX_ARGS
      invariant argc == |taken| == i <= |argv| && Taken(argv, taken)
      invariant cursor == |Packed(taken)| <= ARGS_LEN
      invariant args[..cursor] == Packed(taken)
      invariant forall k | cursor + ARG_LEN <= k < ARGS_LEN :: args[k] == old(args[k])
    {
      if i >= |argv| {
        break;
      }
      if cursor + ARG_LEN > ARGS_LEN {
        break;
      }
      var ret := PackOne(args, cursor, argv[i], taken);
      if ret <= 0 {
        break;
      }
      TakeNext(argv, taken);
      cursor := cursor + ret;
      argc := argc + 1;
      taken := taken + [argv[i].text];
    }
    argsLen := cursor;
  }

  /** Reads one argument in at the cursor. The mask never changes the cursor. */
  method PackOne(args: array<byte>, cursor: nat, src: Target, ghost taken: seq<Bytes>) returns (ret: int)
    requires args.Length == ARGS_LEN && cursor + ARG_LEN <= ARGS_LEN
    requires cursor == |Packed(taken)| && args[..cursor] == Packed(taken)
    modifies args
    ensures src.Fault? ==> ret < 0 && args[..cursor] == Packed(taken)
    ensures src.Str? ==>
              && 0 < ret && cursor + ret == |Packed(taken + [src.text])| <= ARGS_LEN
              && args[..cursor + ret] == Packed(taken + [src.text])
    ensures forall k | cursor + ARG_LEN <= k < ARGS_LEN :: args[k] == old(args[k])
  {
    hide Cut, Packed;
    ghost var before := args[..];
    var off := cursor % ARGS_LEN;
    assert off == cursor;
    ret := ReadStr(args, off, ARG_LEN, src);
    forall k | cursor + ARG_LEN <= k < ARGS_LEN
      ensures args[k] == before[k]
    {
      assert args[k] == args[cursor + ARG_LEN..][k - cursor - ARG_LEN];
    }
    if src.Str? {
      AppendPacked(taken, src.text);
      assert args[..cursor + ret] == args[..cursor] + args[cursor..cursor + ret];
    }
  }

  lemma TakeNext(argv: seq<Target>, taken: seq<Bytes>)
    requires Taken(argv, taken) && Takes(argv, |taken|, taken)
    ensures Taken(argv, taken + [argv[|taken|].text])
  {
    var next := taken + [argv[|taken|].text];
    forall i | 0 <= i < |next|
      ensures argv[i] == Str(next[i]) && Takes(argv, i, next[..i])
    {
      assert next[..i] == taken[..i];
      if i == |taken| { assert taken[..i] == taken; }
    }
  }

  lemma AppendPacked(taken: seq<Bytes>, text: Bytes)
    ensures Packed(taken + [text]) == Packed(taken) + (Cut(text, ARG_LEN - 1) + [0])
  {
  }

  lemma {:induction false} PackedIsShort(taken: seq<Bytes>)
    ensures |Packed(taken)| <= ARG_LEN * |taken|
  {
    if taken != [] {
      PackedIsShort(taken[..|taken| - 1]);
    }
  }

  /** At least the first sixteen readable arguments are captured, at most twenty, and everything up to the first
      that is missing, unreadable, beyond the twentieth, or without room for a longest argument. */
  lemma CapturesEnough(argv: seq<Target>, taken: seq<Bytes>, n: nat)
    requires Captures(argv, taken) && n <= |argv| && n <= 16 && forall i | 0 <= i < n :: argv[i].Str?
    ensures n <= |taken| <= 20
  {
    if |taken| < n {
      PackedIsShort(taken);
      assert Takes(argv, |taken|, taken);
    }
  }

  /** The capture stops only at the end, at an argument that cannot be read, after twenty, or when less than 128 of
      the 2048 bytes are left; before every captured argument there was room for a longest one. */
  lemma CaptureStopsOnlyFor(argv: seq<Target>, taken: seq<Bytes>)
    requires Captures(argv, taken)
    ensures |taken| == |argv| || |taken| == 20 || argv[|taken|].Fault? || |Packed(taken)| + 128 > 2048
    ensures forall i | 0 <= i < |taken| :: i < 20 && argv[i] == Str(taken[i]) && |Packed(taken[..i])| + 128 <= 2048
  {
  }

  lemma NoLongerCapture(argv: seq<Target>, a: seq<Bytes>, b: seq<Bytes>)
    requires Captures(argv, a) && Captures(argv, b) && |a| <= |b|
    ensures a == b
  {
    assert b[..|a|] == a;
  }

  lemma CaptureIsUnique(argv: seq<Target>, a: seq<Bytes>, b: seq<Bytes>)
    requires Captures(argv, a) && Captures(argv, b)
    ensures a == b
  {
    if |a| <= |b| { NoLongerCapture(argv, a, b); } else { NoLongerCapture(argv, b, a); }
  }

  // ---------------------------------------------------------------- reading the arguments back

  function NonEmpty(parts: seq<Bytes>): seq<Bytes> {
    if parts == [] then []
    else NonEmpty(parts[..|parts| - 1]) + if parts[|parts| - 1] == [] then [] else [parts[|parts| - 1]]
  }

  /** `at` lists the positions of the nonempty parts, in order. */
  ghost predicate NonEmptyAt(parts: seq<Bytes>, at: seq<nat>) {
    && (forall m | 0 <= m < |at| :: at[m] < |parts| && parts[at[m]] != [])
    && (forall m, n | 0 <= m < n < |at| :: at[m] < at[n])
    && (forall i | 0 <= i < |parts| && parts[i] != [] :: i in at)
  }

  ghost function NonEmptyPositions(parts: seq<Bytes>): (at: seq<nat>)
    ensures NonEmptyAt(parts, at)
  {
    if parts == [] then []
    else
      var n := |parts| - 1;
      NonEmptyPositions(parts[..n]) + if parts[n] == [] then [] else [n]
  }

  /** What is kept are the nonempty parts, each of them, in their order. */
  lemma {:induction false} NonEmptyInOrder(parts: seq<Bytes>)
    ensures var at := NonEmptyPositions(parts);
            |NonEmpty(parts)| == |at| && forall m | 0 <= m < |at| :: NonEmpty(parts)[m] == parts[at[m]]
  {
    if parts != [] {
      var n := |parts| - 1;
      NonEmptyInOrder(parts[..n]);
      var at, front := NonEmptyPositions(parts[..n]), NonEmpty(parts[..n]);
      assert NonEmptyPositions(parts) == at + if parts[n] == [] then [] else [n];
      assert NonEmpty(parts) == front + if parts[n] == [] then [] else [parts[n]];
      hide NonEmpty, NonEmptyPositions;
      forall m | 0 <= m < |at| ensures front[m] == parts[at[m]] { assert front[m] == parts[..n][at[m]]; }
    }
  }

  lemma CutIsPrefix(s: Bytes, n: nat)
    ensures Cut(s, n) <= s && (|s| <= n ==> Cut(s, n) == s) && (|s| > n ==> |Cut(s, n)| == n)
  {
  }

  /** The bytes of `<invalid>`. */
  const INVALID: Bytes := [60, 105, 110, 118, 97, 108, 105, 100, 62]

  /** Text is taken as it is, anything else becomes `<invalid>`. */
  function Shown(s: Bytes): Bytes {
    if ValidUtf8(s) then s else INVALID
  }

  function ShownAll(parts: seq<Bytes>): (r: seq<Bytes>)
    ensures |r| == |parts| && forall i | 0 <= i < |r| :: r[i] == Shown(parts[i])
  {
    seq(|parts|, i requires 0 <= i < |parts| => Shown(parts[i]))
  }

  /** What user space makes of an exec event's argument bytes. */
  function DecodeArgs(args: Bytes, argsLen: nat): seq<Bytes>
    requires |args| == ARGS_LEN
  {
    ShownAll(NonEmpty(Split(args[..if argsLen < ARGS_LEN then argsLen else ARGS_LEN], 0)))
  }

  /** Each argument cut to 127 bytes. */
  function CutAll(argv: seq<Bytes>): (r: seq<Bytes>)
    ensures |r| == |argv| && forall i | 0 <= i < |r| :: r[i] == Cut(argv[i], ARG_LEN - 1)
  {
    seq(|argv|, i requires 0 <= i < |argv| => Cut(argv[i], ARG_LEN - 1))
  }

  lemma {:induction false} PackedFromFront(argv: seq<Bytes>)
    requires argv != []
    ensures Packed(argv) == Cut(argv[0], ARG_LEN - 1) + [0] + Packed(argv[1..])
    decreases |argv|
  {
    if |argv| == 1 {
      assert argv[..0] == [] && argv[1..] == [];
    } else {
      var front, last := argv[..|argv| - 1], argv[|argv| - 1];
      PackedFromFront(front);
      var tail := argv[1..];
      assert front[1..] == tail[..|tail| - 1] && tail[|tail| - 1] == last;
      Regroup(Cut(argv[0], ARG_LEN - 1) + [0], Packed(front[1..]), Cut(last, ARG_LEN - 1), [0]);
    }
  }

  lemma CutIsNulFree(s: Bytes, n: nat)
    requires NulFree(s)
    ensures NulFree(Cut(s, n))
  {
  }

  lemma {:induction false} SplitPacked(argv: seq<Bytes>)
    requires forall i | 0 <= i < |argv| :: NulFree(argv[i])
    ensures Split(Packed(argv), 0) == CutAll(argv) + [[]]
    decreases |argv|
  {
    hide Find, Cut;
    if argv != [] {
      hide Split;
      PackedFromFront(argv);
      CutIsNulFree(argv[0], ARG_LEN - 1);
      SplitFirst(Cut(argv[0], ARG_LEN - 1), 0, Packed(argv[1..]));
      SplitPacked(argv[1..]);
      assert CutAll(argv) == [Cut(argv[0], ARG_LEN - 1)] + CutAll(argv[1..]);
    }
  }

  /** Whatever else the buffer holds, user space reads back exactly the captured arguments that are not empty,
      each cut to 127 bytes, and each that is then not text as `<invalid>`. */
  lemma ArgsRoundTrip(args: Bytes, argv: seq<Target>, taken: seq<Bytes>)
    requires Captures(argv, taken) && forall i | 0 <= i < |argv| && argv[i].Str? :: NulFree(argv[i].text)
    requires |args| == ARGS_LEN && |Packed(taken)| <= ARGS_LEN && args[..|Packed(taken)|] == Packed(taken)
    ensures DecodeArgs(args, |Packed(taken)|) == ShownAll(NonEmpty(CutAll(taken)))
  {
    SplitPacked(taken);
    var parts := CutAll(taken) + [[]];
    assert parts[..|parts| - 1] == CutAll(taken);
  }

  /** A length beyond the buffer is taken for the whole buffer, and a buffer without a NUL for one whole string. */
  lemma OverlongIsCut(args: Bytes, argsLen: nat, buf: Bytes)
    requires |args| == ARGS_LEN && argsLen >= 2048 && NulFree(buf)
    ensures DecodeArgs(args, argsLen) == ShownAll(NonEmpty(Split(args, 0)))
    ensures CStr(buf) == Shown(buf)
  {
    assert args[..2048] == args;
    SplitWord(buf, 0);
    assert buf[..Find(buf, 0)] == buf;
  }

  /** User space shows `text` as `shown`: its first `n` bytes, or all if it has fewer, if those are text. */
  ghost predicate ShownAs(text: Bytes, n: nat, shown: Bytes) {
    exists part: Bytes :: part <= text && (|part| == n || (part == text && |text| < n))
                          && shown == if ValidUtf8(part) then part else [60, 105, 110, 118, 97, 108, 105, 100, 62]
  }

  lemma CutAllKeepsNonEmpty(argv: seq<Bytes>, at: seq<nat>)
    requires NonEmptyAt(CutAll(argv), at)
    ensures NonEmptyAt(argv, at)
  {
    assert forall i | 0 <= i < |argv| :: CutAll(argv)[i] == [] <==> argv[i] == [];
  }

  /** The arguments read back, one by one: the nonempty captured ones, each of them, in their order. */
  lemma ArgsAreShownInOrder(args: Bytes, argv: seq<Target>, taken: seq<Bytes>)
    requires Captures(argv, taken) && forall i | 0 <= i < |argv| && argv[i].Str? :: NulFree(argv[i].text)
    requires |args| == ARGS_LEN && |Packed(taken)| <= ARGS_LEN && args[..|Packed(taken)|] == Packed(taken)
    ensures var r := DecodeArgs(args, |Packed(taken)|);
            exists at :: NonEmptyAt(taken, at) && |r| == |at| && forall m | 0 <= m < |at| :: ShownAs(taken[at[m]], 127, r[m])
  {
    ArgsRoundTrip(args, argv, taken);
    hide DecodeArgs, Captures, Cut, ValidUtf8, Packed, NonEmpty;
    var cut, at := CutAll(taken), NonEmptyPositions(CutAll(taken));
    var r := DecodeArgs(args, |Packed(taken)|);
    NonEmptyInOrder(cut);
    CutAllKeepsNonEmpty(taken, at);
    forall m | 0 <= m < |at|
      ensures ShownAs(taken[at[m]], 127, r[m])
    {
      var text := taken[at[m]];
      CutIsPrefix(text, ARG_LEN - 1);
      assert r[m] == Shown(Cut(text, ARG_LEN - 1));
    }
  }

  /** The bytes before the first NUL. */
  function UpToNul(buf: Bytes): Bytes {
    buf[..Find(buf, 0)]
  }

  /** What user space makes of a buffer with a string in it. */
  function CStr(buf: Bytes): Bytes {
    Shown(UpToNul(buf))
  }

  /** A path that was read into a buffer of 256 bytes is read back cut to 255 bytes, whatever follows it, or as
      `<invalid>` if what is left is not text. */
  lemma PathRoundTrip(path: Bytes, residue: Bytes)
    requires NulFree(path)
    ensures ShownAs(path, 255, CStr(Cut(path, PATH_LEN - 1) + [0] + residue))
  {
    hide ValidUtf8, Cut;
    var cut := Cut(path, PATH_LEN - 1);
    CutIsNulFree(path, PATH_LEN - 1);
    FindAfterWord(cut, 0, residue);
    assert UpToNul(cut + [0] + residue) == cut;
    CutIsPrefix(path, PATH_LEN - 1);
  }

  // ---------------------------------------------------------------- the deny list

  function Zeros(n: nat): (z: Bytes)
    ensures |z| == n && forall i | 0 <= i < n :: z[i] == 0
  {
    seq(n, i => 0)
  }

  /** The map key of a path: its bytes, filled up with zeros. */
  function KeyOf(path: Bytes): (k: Bytes)
    requires |path| <= PATH_LEN
    ensures |k| == PATH_LEN
  {
    path + Zeros(PATH_LEN - |path|)
  }

  lemma KeysTellPathsApart(a: Bytes, b: Bytes)
    requires NulFree(a) && NulFree(b) && |a| < PATH_LEN && |b| < PATH_LEN
    ensures KeyOf(a) == KeyOf(b) <==> a == b
  {
    if KeyOf(a) == KeyOf(b) {
      KeyEndsWithPath(a);
      KeyEndsWithPath(b);
    }
  }

  lemma KeyEndsWithPath(a: Bytes)
    requires NulFree(a) && |a| < PATH_LEN
    ensures UpToNul(KeyOf(a)) == a
  {
    assert KeyOf(a) == a + [0] + Zeros(PATH_LEN - |a| - 1);
    FindAfterWord(a, 0, Zeros(PATH_LEN - |a| - 1));
  }

  const COMMA: byte := 44

  /** The entries of the comma-separated list. */
  function EntriesOf(list: Bytes): seq<Bytes> {
    NonEmpty(Split(list, COMMA))
  }

  /** Texts without a comma, joined by commas: the entries are the nonempty ones, in their order. */
  lemma EntriesOfJoined(paths: seq<Bytes>)
    requires forall i | 0 <= i < |paths| :: 44 !in paths[i]
    ensures var entries := EntriesOf(Joined(paths, 44));
            exists at :: NonEmptyAt(paths, at) && |entries| == |at| && forall m | 0 <= m < |at| :: entries[m] == paths[at[m]]
  {
    if paths == [] {
      SplitWord([], COMMA);
      assert NonEmpty([[]]) == NonEmpty([[]][..0]) + [] == [];
      assert NonEmptyAt(paths, []);
    } else {
      SplitJoined(paths, COMMA);
      NonEmptyInOrder(paths);
    }
  }

  lemma {:induction false} NonEmptyMembers(parts: seq<Bytes>, p: Bytes)
    ensures p in NonEmpty(parts) <==> p in parts && p != []
  {
    if parts != [] {
      NonEmptyMembers(parts[..|parts| - 1], p);
      assert parts == parts[..|parts| - 1] + [parts[|parts| - 1]];
    }
  }

  /** In any list an entry is a nonempty stretch without a comma that commas or the ends of the list bound. */
  lemma EntryIffStretch(list: Bytes, p: Bytes)
    ensures p in EntriesOf(list) <==> p != [] && 44 !in p && IsStretch(list, 44, p)
  {
    NonEmptyMembers(Split(list, COMMA), p);
    PieceIffStretch(list, COMMA, p);
  }

  /** The list names the path, in few enough bytes to become a key. */
  ghost predicate InList(list: Bytes, path: Bytes) {
    path != [] && |path| < 256 && 44 !in path && IsStretch(list, 44, path)
  }

  lemma InJoinedList(paths: seq<Bytes>, path: Bytes)
    requires forall i | 0 <= i < |paths| :: 44 !in paths[i]
    ensures InList(Joined(paths, 44), path) <==> path in paths && path != [] && |path| < 256
  {
    EntryIffStretch(Joined(paths, COMMA), path);
    if paths == [] {
      SplitWord([], COMMA);
    } else {
      SplitJoined(paths, COMMA);
      NonEmptyMembers(paths, path);
    }
  }

  /** The entries that become keys are those shorter than 256 bytes. */
  ghost predicate Listed(paths: seq<Bytes>, path: Bytes) {
    path in paths && |path| < PATH_LEN
  }

  function KeysOf(paths: seq<Bytes>): set<Bytes> {
    if paths == [] then {}
    else
      var last := paths[|paths| - 1];
      KeysOf(paths[..|paths| - 1]) + if |last| < PATH_LEN then {KeyOf(last)} else {}
  }

  lemma {:induction false} KeysAreOfListed(paths: seq<Bytes>, k: Bytes)
    ensures k in KeysOf(paths) <==> exists p :: Listed(paths, p) && k == KeyOf(p)
  {
    if paths != [] {
      var front, last := paths[..|paths| - 1], paths[|paths| - 1];
      KeysAreOfListed(front, k);
      if p :| Listed(front, p) && k == KeyOf(p) { assert Listed(paths, p); }
      if |last| < PATH_LEN && k == KeyOf(last) { assert Listed(paths, last); }
      if p :| Listed(paths, p) && k == KeyOf(p) { assert p in front || p == last; }
    }
  }

  lemma {:induction false} KeysGrow(paths: seq<Bytes>, n: nat)
    requires n <= |paths|
    ensures |KeysOf(paths[..n])| <= |KeysOf(paths)|
    decreases |paths|
  {
    if n < |paths| {
      var front := paths[..|paths| - 1];
      assert front[..n] == paths[..n];
      KeysGrow(front, n);
      SubsetSize(KeysOf(front), KeysOf(paths));
    } else {
      assert paths[..n] == paths;
    }
  }

  lemma NoKeys()
    ensures KeysOf([]) == {}
  {
  }

  lemma NextKey(paths: seq<Bytes>, i: nat)
    requires i < |paths|
    ensures KeysOf(paths[..i + 1]) == KeysOf(paths[..i]) + if |paths[i]| < PATH_LEN then {KeyOf(paths[i])} else {}
  {
    assert paths[..i + 1][..i] == paths[..i];
  }

  /** User space fills the deny map. Overlong entries are skipped; it fails exactly when the entries make more
      keys than the map has room for. */
  method FillDenyList(list: Bytes) returns (r: Result<set<Bytes>, nat>)
    ensures r.Ok? <==> |KeysOf(EntriesOf(list))| <= 64
    ensures r.Ok? ==> r.value == KeysOf(EntriesOf(list))
  {
    hide EntriesOf, KeyOf, KeysOf;
    var deny: set<Bytes> := {};
    var paths := EntriesOf(list);
    assert KeysOf(paths[..0]) == {} by { NoKeys(); }
    for i := 0 to |paths|
      invariant deny == KeysOf(paths[..i]) && |deny| <= DENYLIST_ENTRIES
    {
      var bytes := paths[i];
      NextKey(paths, i);
      if |bytes| >= PATH_LEN {
        continue;
      }
      var key := BuildKey(bytes);
      if key !in deny && |deny| == DENYLIST_ENTRIES {
        KeysGrow(paths, i + 1);
        return Err(i);
      }
      deny := deny + {key};
    }
    assert paths[..|paths|] == paths;
    return Ok(deny);
  }

  /** A zeroed array with the path copied over its front. */
  method BuildKey(bytes: Bytes) returns (key: Bytes)
    requires |bytes| < PATH_LEN
    ensures key == KeyOf(bytes)
  {
    var a := new byte[PATH_LEN](_ => 0);
    for i := 0 to |bytes|
      invariant a[..i] == bytes[..i]
      invariant forall k | i <= k < PATH_LEN :: a[k] == 0
    {
      a[i] := bytes[i];
      assert bytes[..i + 1] == bytes[..i] + [bytes[i]];
    }
    key := a[..];
    assert key[..|bytes|] == bytes[..|bytes|] == bytes;
    assert key == bytes + Zeros(PATH_LEN - |bytes|);
  }

  /** What the exec hook finds when it is called. */
  datatype Bprm = Bprm(
    prev: int,
    isNull: bool,
    filenameOff: Option<nat>,
    namePtr: Option<Target>,
    hasSlot: bool,
    enforce: Option<nat>)

  /** The verdict of the hook, and whether it wrote an event and what the event says. The reserved buffer may
      hold anything to begin with. */
  method TryBprm(ctx: Bprm, filename: array<byte>, denyList: set<Bytes>) returns (verdict: int, blocked: Option<bool>)
    requires filename.Length == PATH_LEN
    modifies filename
    ensures ctx.prev != 0 ==> verdict == ctx.prev && blocked == None
    ensures ctx.prev == 0 ==>
              if !ctx.isNull && ctx.filenameOff.Some? && ctx.filenameOff.value != 0
                 && ctx.namePtr.Some? && ctx.namePtr.value.Str? && ctx.hasSlot then
                var path := Cut(ctx.namePtr.value.text, 255);
                && blocked == Some(ctx.enforce.Some? && ctx.enforce.value != 0 && KeyOf(path) in denyList)
                && verdict == (if blocked.value then -1 else 0)
                && filename[..] == KeyOf(path)
              else verdict == 0 && blocked == None
  {
    if ctx.prev != 0 {
      return ctx.prev, None;
    }
    if ctx.isNull {
      return 0, None;
    }
    if ctx.filenameOff.None? || ctx.filenameOff.value == 0 {
      return 0, None;
    }
    if ctx.namePtr.None? {
      return 0, None;
    }
    if !ctx.hasSlot {
      return 0, None;
    }
    var n := ReadStr(filename, 0, PATH_LEN, ctx.namePtr.value);
    if n < 0 {
      return 0, None;
    }
    ghost var path := Cut(ctx.namePtr.value.text, PATH_LEN - 1);
    ZeroTail(filename, n);
    assert filename[..] == KeyOf(path) by {
      assert filename[..n] == path + [0];
      assert filename[..] == path + [0] + Zeros(PATH_LEN - n);
    }
    var enforcing := ctx.enforce.Some? && ctx.enforce.value != 0;
    var listed := filename[..] in denyList;
    var isBlocked := enforcing && listed;
    return if isBlocked then -1 else 0, Some(isBlocked);
  }

  /** Overwrites everything from `written` on with zeros. */
  method ZeroTail(dst: array<byte>, written: nat)
    requires dst.Length == PATH_LEN && written <= PATH_LEN
    modifies dst
    ensures dst[..] == old(dst[..written]) + Zeros(PATH_LEN - written)
  {
    for i := 0 to PATH_LEN
      invariant dst[..written] == old(dst[..written])
      invariant forall k | written <= k < i :: dst[k] == 0
    {
      if i >= written {
        dst[i % PATH_LEN] := 0;
      }
    }
    assert dst[..] == dst[..written] + dst[written..];
    assert dst[written..] == Zeros(PATH_LEN - written);
  }

  /** The hook gets as far as looking the path up. */
  predicate ReachesLookup(ctx: Bprm) {
    && !ctx.isNull && ctx.filenameOff.Some? && ctx.filenameOff.value != 0
    && ctx.namePtr.Some? && ctx.namePtr.value.Str? && ctx.hasSlot
  }

  /** The two sides' keys agree exactly on the entry that equals the first 255 bytes of the path. */
  lemma DeniedIffListed(paths: seq<Bytes>, path: Bytes)
    requires NulFree(path) && forall p | p in paths :: NulFree(p)
    ensures KeyOf(Cut(path, PATH_LEN - 1)) in KeysOf(paths) <==> Listed(paths, Cut(path, PATH_LEN - 1))
  {
    var cut := Cut(path, PATH_LEN - 1);
    KeysAreOfListed(paths, KeyOf(cut));
    assert NulFree(cut);
    if KeyOf(cut) in KeysOf(paths) {
      var p :| Listed(paths, p) && KeyOf(cut) == KeyOf(p);
      KeysTellPathsApart(cut, p);
    }
  }

  /** The paths that become keys. */
  function ListedPaths(paths: seq<Bytes>): set<Bytes> {
    set p | p in paths && |p| < 256
  }

  lemma OneMoreMember(s: set<Bytes>, x: Bytes)
    ensures |s + {x}| == if x in s then |s| else |s| + 1
  {
    if x in s { assert s + {x} == s; }
  }

  /** There are as many keys as distinct paths that become keys. */
  lemma {:induction false} KeysCount(paths: seq<Bytes>)
    requires forall p | p in paths :: NulFree(p)
    ensures |KeysOf(paths)| == |ListedPaths(paths)|
  {
    if paths != [] {
      var front, last := paths[..|paths| - 1], paths[|paths| - 1];
      assert paths == front + [last];
      assert ListedPaths(paths) == ListedPaths(front) + if |last| < 256 then {last} else {};
      KeysCount(front);
      if |last| < 256 {
        KeyIsNewIff(front, last);
        hide KeyOf;
        OneMoreMember(KeysOf(front), KeyOf(last));
        OneMoreMember(ListedPaths(front), last);
      }
    } else {
      assert ListedPaths(paths) == {};
    }
  }

  lemma {:induction false} KeyIsNewIff(paths: seq<Bytes>, path: Bytes)
    requires NulFree(path) && |path| < 256 && forall p | p in paths :: NulFree(p)
    ensures KeyOf(path) in KeysOf(paths) <==> path in ListedPaths(paths)
  {
    KeysAreOfListed(paths, KeyOf(path));
    if p :| Listed(paths, p) && KeyOf(path) == KeyOf(p) { KeysTellPathsApart(path, p); }
  }

  lemma EntriesAreNulFree(list: Bytes)
    requires NulFree(list)
    ensures forall p | p in EntriesOf(list) :: NulFree(p)
  {
    forall p | p in EntriesOf(list)
      ensures NulFree(p)
    {
      EntryIffStretch(list, p);
      var i: nat :| StretchAt(list, COMMA, p, i);
      assert forall n | 0 <= n < |p| :: p[n] == list[i + n];
    }
  }

  /** Set up by user space and asked by the kernel about a NUL-free path: with no earlier verdict and everything
      readable, the hook denies exactly when it enforces and the list names the path's first 255 bytes. */
  method DenyEndToEnd(list: Bytes, ctx: Bprm, filename: array<byte>) returns (verdict: Option<int>)
    requires filename.Length == PATH_LEN && ctx.prev == 0 && ReachesLookup(ctx)
    requires NulFree(ctx.namePtr.value.text) && NulFree(list)
    modifies filename
    ensures verdict.Some? <==> |ListedPaths(EntriesOf(list))| <= 64
    ensures verdict.Some? ==>
              verdict.value == if ctx.enforce.Some? && ctx.enforce.value != 0 && InList(list, Cut(ctx.namePtr.value.text, 255)) then -1 else 0
  {
    EntriesAreNulFree(list);
    KeysCount(EntriesOf(list));
    var filled := FillDenyList(list);
    if filled.Err? {
      return None;
    }
    DeniedIffListed(EntriesOf(list), ctx.namePtr.value.text);
    EntryIffStretch(list, Cut(ctx.namePtr.value.text, PATH_LEN - 1));
    var v, blocked := TryBprm(ctx, filename, filled.value);
    verdict := Some(v);
  }
}
