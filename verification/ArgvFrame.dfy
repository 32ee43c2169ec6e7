/** Splitting a command line and building the initial user stack (src/kernel/usermode.cpp),
    and what the C start-up code reads from it (user/crt0.asm). */
module ArgvFrame {
  import opened Common

  // ---------------------------------------------------------------------
  // Words of a command line.
  // ---------------------------------------------------------------------

  /** Space or tab. */
  predicate IsBlank(b: byte) { b == 32 || b == 9 }

  predicate NoZero(s: seq<byte>) { forall i :: 0 <= i < |s| ==> s[i] != 0 }

  /** The first position from i on that is not blank. */
  function Skip(s: seq<byte>, i: nat): (j: nat)
    requires i <= |s|
    ensures i <= j <= |s| && (forall k :: i <= k < j ==> IsBlank(s[k])) && (j < |s| ==> !IsBlank(s[j]))
    decreases |s| - i
  {
    if i < |s| && IsBlank(s[i]) then Skip(s, i + 1) else i
  }

  /** The first blank position from i on. */
  function WordEnd(s: seq<byte>, i: nat): (j: nat)
    requires i <= |s|
    ensures i <= j <= |s| && (forall k :: i <= k < j ==> !IsBlank(s[k])) && (j < |s| ==> IsBlank(s[j]))
    decreases |s| - i
  {
    if i < |s| && !IsBlank(s[i]) then WordEnd(s, i + 1) else i
  }

  /** Where word k starts, and the end of the word before it. */
  function Start(s: seq<byte>, k: nat): (i: nat)
    ensures i <= |s|
  {
    Skip(s, End(s, k))
  }

  function End(s: seq<byte>, k: nat): (i: nat)
    ensures i <= |s|
    decreases k, s
  {
    if k == 0 then 0 else WordEnd(s, Skip(s, End(s, k - 1)))
  }

  function Word(s: seq<byte>, k: nat): seq<byte> { s[Start(s, k)..End(s, k + 1)] }

  /** The number of words, at most 15, given that there are at least k. */
  function Count(s: seq<byte>, k: nat): (n: nat)
    requires k <= 15
    ensures k <= n <= 15
    ensures forall j :: k <= j < n ==> Start(s, j) < |s|
    ensures n < 15 ==> Start(s, n) == |s|
    decreases 15 - k, s
  {
    if k == 15 || Start(s, k) == |s| then k else Count(s, k + 1)
  }

  /** Words are the maximal stretches without blanks: each is non-empty and free of blanks,
      only blanks come before, between and (unless there are 15 words) after them. */
  lemma WordsAre(s: seq<byte>, k: nat)
    requires k < Count(s, 0)
    ensures 0 < |Word(s, k)| && forall j :: 0 <= j < |Word(s, k)| ==> !IsBlank(Word(s, k)[j])
    ensures End(s, k) <= Start(s, k) && forall j :: End(s, k) <= j < Start(s, k) ==> IsBlank(s[j])
    ensures k > 0 ==> End(s, k) < Start(s, k)
    ensures Count(s, 0) < 15 ==> forall j :: End(s, Count(s, 0)) <= j < |s| ==> IsBlank(s[j])
  {}

  function Words(s: seq<byte>): (ws: seq<seq<byte>>)
    ensures |ws| == Count(s, 0) && forall k :: 0 <= k < |ws| ==> ws[k] == Word(s, k)
  {
    seq(Count(s, 0), k requires k >= 0 => Word(s, k))
  }

  /** Word k lies in [starts[k], ends[k + 1]), behind spaces or tabs from ends[k] on. */
  ghost predicate WordStands(s: seq<byte>, starts: seq<nat>, ends: seq<nat>, k: nat)
    requires |ends| == |starts| + 1 && k < |starts|
  {
    ends[k] <= starts[k] < ends[k + 1] <= |s| && (k > 0 ==> ends[k] < starts[k]) &&
    Gap(s, ends[k], starts[k]) && Solid(s, starts[k], ends[k + 1])
  }

  /** The line consists of words with spaces and tabs before, between and behind them. */
  ghost predicate Split(s: seq<byte>, starts: seq<nat>, ends: seq<nat>) {
    |ends| == |starts| + 1 && ends[0] == 0 && ends[|starts|] <= |s| && Gap(s, ends[|starts|], |s|) &&
    forall k: nat {:trigger WordStands(s, starts, ends, k)} :: k < |starts| ==> WordStands(s, starts, ends, k)
  }

  predicate Gap(s: seq<byte>, i: nat, j: nat)
    requires i <= j <= |s|
  {
    forall x :: i <= x < j ==> s[x] == ' ' as int || s[x] == '\t' as int
  }

  predicate Solid(s: seq<byte>, i: nat, j: nat)
    requires i <= j <= |s|
  {
    forall x :: i <= x < j ==> s[x] != ' ' as int && s[x] != '\t' as int
  }

  lemma {:induction false} SkipIs(s: seq<byte>, i: nat, j: nat)
    requires i <= j <= |s| && Gap(s, i, j) && (j < |s| ==> Solid(s, j, j + 1))
    ensures Skip(s, i) == j
    decreases j - i
  {
    if i < j { SkipIs(s, i + 1, j); }
  }

  lemma {:induction false} WordEndIs(s: seq<byte>, i: nat, j: nat)
    requires i <= j <= |s| && Solid(s, i, j) && (j < |s| ==> Gap(s, j, j + 1))
    ensures WordEnd(s, i) == j
    decreases j - i
  {
    if i < j { WordEndIs(s, i + 1, j); }
  }

  /** A word ends at a space or tab, or at the end of the line. */
  lemma GapBehind(s: seq<byte>, starts: seq<nat>, ends: seq<nat>, k: nat)
    requires Split(s, starts, ends) && k <= |starts| && k > 0
    ensures ends[k] <= |s| && (ends[k] < |s| ==> Gap(s, ends[k], ends[k] + 1))
  {
    if k < |starts| { assert WordStands(s, starts, ends, k); }
  }

  lemma StartIs(s: seq<byte>, k: nat, i: nat, j: nat)
    requires End(s, k) == i <= j <= |s| && Gap(s, i, j) && (j < |s| ==> Solid(s, j, j + 1))
    ensures Start(s, k) == j
  {
    SkipIs(s, i, j);
  }

  lemma EndIs(s: seq<byte>, k: nat, i: nat, j: nat)
    requires Start(s, k) == i <= j <= |s| && Solid(s, i, j) && (j < |s| ==> Gap(s, j, j + 1))
    ensures End(s, k + 1) == j
  {
    WordEndIs(s, i, j);
  }

  lemma {:induction false} SplitAt(s: seq<byte>, starts: seq<nat>, ends: seq<nat>, k: nat, e: nat)
    requires Split(s, starts, ends) && k <= |starts| && e == End(s, k)
    ensures e == ends[k]
    ensures Start(s, k) == if k < |starts| then starts[k] else |s|
  {
    if k > 0 {
      var i := k - 1;
      SplitAt(s, starts, ends, i, End(s, i));
      assert WordStands(s, starts, ends, i);
      GapBehind(s, starts, ends, k);
      EndIs(s, i, starts[i], ends[k]);
    }
    if k < |starts| {
      assert WordStands(s, starts, ends, k);
      StartIs(s, k, ends[k], starts[k]);
    } else {
      StartIs(s, k, ends[k], |s|);
    }
  }

  /** Splitting such a line gives the words, or the first 15 of them. */
  lemma WordsOfSplit(s: seq<byte>, starts: seq<nat>, ends: seq<nat>)
    requires Split(s, starts, ends)
    ensures |Words(s)| == if |starts| < 15 then |starts| else 15
    ensures forall k: nat :: k < |Words(s)| ==> starts[k] <= ends[k + 1] <= |s| && Words(s)[k] == s[starts[k]..ends[k + 1]]
  {
    CountIs(s, starts, ends, 0);
    forall k: nat | k < |Words(s)|
      ensures starts[k] <= ends[k + 1] <= |s| && Words(s)[k] == s[starts[k]..ends[k + 1]]
    {
      SplitWord(s, starts, ends, k);
    }
  }

  lemma SplitWord(s: seq<byte>, starts: seq<nat>, ends: seq<nat>, k: nat)
    requires Split(s, starts, ends) && k < |starts|
    ensures starts[k] <= ends[k + 1] <= |s| && Word(s, k) == s[starts[k]..ends[k + 1]]
  {
    assert WordStands(s, starts, ends, k);
    SplitAt(s, starts, ends, k, End(s, k));
    var next := k + 1;
    SplitAt(s, starts, ends, next, End(s, next));
    WordIs(s, k, starts[k], next, ends[next]);
  }

  lemma WordIs(s: seq<byte>, k: nat, i: nat, next: nat, e: nat)
    requires i == Start(s, k) && next == k + 1 && e == End(s, next) && i <= e
    ensures Word(s, k) == s[i..e]
  {}

  lemma {:induction false} CountIs(s: seq<byte>, starts: seq<nat>, ends: seq<nat>, k: nat)
    requires Split(s, starts, ends) && k <= |starts| && k <= 15
    ensures Count(s, k) == if |starts| < 15 then |starts| else 15
    decreases 15 - k
  {
    SplitAt(s, starts, ends, k, End(s, k));
    if k < |starts| {
      assert WordStands(s, starts, ends, k);
      if k < 15 { CountIs(s, starts, ends, k + 1); }
    }
  }

  /** Bytes the first k texts take with a zero after each. */
  function Need(ws: seq<seq<byte>>, k: nat): nat
    requires k <= |ws|
  {
    if k == 0 then 0 else Need(ws, k - 1) + |ws[k - 1]| + 1
  }

  lemma {:induction false} NeedGrows(ws: seq<seq<byte>>, j: nat, k: nat)
    requires j <= k <= |ws|
    ensures Need(ws, j) <= Need(ws, k)
    decreases k - j
  {
    if j < k { NeedGrows(ws, j, k - 1); }
  }

  /** Word k fills the stretch from its start to its end, and a blank separates it from the
      word before. */
  ghost predicate Spaced(s: seq<byte>, ws: seq<seq<byte>>, k: nat)
    requires k < |ws|
  {
    Start(s, k) + |ws[k]| == End(s, k + 1) && if k == 0 then 0 <= Start(s, k) else End(s, k) < Start(s, k)
  }

  lemma WordsSpaced(s: seq<byte>, k: nat)
    requires k < |Words(s)|
    ensures Spaced(s, Words(s), k)
  {
    WordsAre(s, k);
    assert Words(s)[k] == Word(s, k);
  }

  lemma {:induction false} NeedBound(s: seq<byte>, ws: seq<seq<byte>>, k: nat)
    requires k <= |ws| && forall j {:trigger Spaced(s, ws, j)} :: 0 <= j < |ws| ==> Spaced(s, ws, j)
    ensures Need(ws, k) <= End(s, k) + 1
    ensures k < |ws| ==> Need(ws, k) <= Start(s, k)
  {
    if k > 0 {
      NeedBound(s, ws, k - 1);
      assert Spaced(s, ws, k - 1);
    }
    if k < |ws| { assert Spaced(s, ws, k); }
  }

  /** Command lines of at most 255 bytes fit the 256-byte buffer. */
  lemma ShortLineFits(s: seq<byte>)
    requires |s| <= 255
    ensures Need(Words(s), |Words(s)|) <= 256
  {
    forall k | 0 <= k < |Words(s)| ensures Spaced(s, Words(s), k) { WordsSpaced(s, k); }
    NeedBound(s, Words(s), |Words(s)|);
  }

  /** The zero-terminated text w stands at position i. */
  ghost predicate Held(m: seq<byte>, i: nat, w: seq<byte>) {
    i + |w| < |m| && m[i + |w|] == 0 && forall j :: 0 <= j < |w| ==> m[i + j] == w[j]
  }

  lemma HeldAgree(m: seq<byte>, m': seq<byte>, i: nat, w: seq<byte>)
    requires Held(m, i, w) && Agree(m, m', i, i + |w| + 1)
    ensures Held(m', i, w)
  {}

  /** Word j was stored behind the words before it. */
  ghost predicate StoredAt(m: seq<byte>, starts: seq<nat>, ws: seq<seq<byte>>, j: nat)
    requires j < |ws| < |starts|
  {
    starts[j + 1] == Need(ws, j) && Held(m, Need(ws, j), ws[j])
  }

  ghost predicate Stored(m: seq<byte>, starts: seq<nat>, ws: seq<seq<byte>>, k: nat) {
    k <= |ws| < |starts| && forall j :: 0 <= j < k ==> StoredAt(m, starts, ws, j)
  }

  /** Some word was cut or lies outside the buffer. */
  ghost predicate Damaged(m: seq<byte>, starts: seq<nat>, ws: seq<seq<byte>>) {
    |ws| < |starts| && exists j :: 0 <= j < |ws| && !Held(m, starts[j + 1], ws[j])
  }

  /** Storing word k keeps the words before it. */
  lemma Extended(ws: seq<seq<byte>>, m: seq<byte>, m': seq<byte>, st: seq<nat>, st': seq<nat>, k: nat)
    requires k < |ws| && Stored(m, st, ws, k) && Need(ws, k) <= |m| && Agree(m, m', 0, Need(ws, k))
    requires |st| == |st'| && st' == st[k + 1 := Need(ws, k)]
    ensures Stored(m', st', ws, k)
    ensures Held(m', Need(ws, k), ws[k]) ==> Stored(m', st', ws, k + 1)
  {
    forall j | 0 <= j < k ensures StoredAt(m', st', ws, j) {
      assert StoredAt(m, st, ws, j);
      NeedGrows(ws, j + 1, k);
      HeldAgree(m, m', Need(ws, j), ws[j]);
    }
  }

  /** After argc - 1 words either all of them are stored, or the lost one is not in the buffer
      and nothing more will be. */
  ghost predicate Taken(ws: seq<seq<byte>>, m: seq<byte>, st: seq<nat>, argc: nat, abi: nat, lost: Option<nat>) {
    1 <= argc && |ws| < |st| &&
    match lost
    case None => argc <= |ws| + 1 && abi == Need(ws, argc - 1) <= 256 && Stored(m, st, ws, argc - 1)
    case Some(k) =>
      abi == 256 && Need(ws, |ws|) > 256 && k < |ws| && k + 1 < argc && !Held(m, st[k + 1], ws[k])
  }

  /** The words from position p on are ws from number k on, 15 in all at most. */
  ghost predicate Ahead(s: seq<byte>, ws: seq<seq<byte>>, k: nat, p: nat)
    requires p <= |s|
    decreases |ws| - k
  {
    var q := Skip(s, p);
    if k >= |ws| then k == |ws| && (k == 15 || q == |s|)
    else k < 15 && q < |s| && ws[k] == s[q..WordEnd(s, q)] && Ahead(s, ws, k + 1, WordEnd(s, q))
  }

  lemma {:induction false} WordsAhead(s: seq<byte>, ws: seq<seq<byte>>, k: nat)
    requires ws == Words(s) && k <= |ws|
    ensures Ahead(s, ws, k, End(s, k))
    decreases |ws| - k
  {
    if k < |ws| {
      WordsAhead(s, ws, k + 1);
      assert ws[k] == Word(s, k);
    }
  }

  class Tokenizer {
    const scratch: array<byte>
    const starts: array<nat>

    constructor ()
      ensures scratch.Length == 256 && starts.Length == 16 && fresh(scratch) && fresh(starts)
    {
      scratch, starts := new byte[256], new nat[16];
    }

    method SkipBlanks(args: seq<byte>, p: nat) returns (p': nat)
      requires p <= |args|
      ensures p' == Skip(args, p)
    {
      p' := p;
      while p' < |args| && IsBlank(args[p'])
        invariant p' <= |args| && Skip(args, p') == Skip(args, p)
      {
        p' := p' + 1;
      }
    }

    /** Copies one word, as far as the buffer allows. */
    method CopyWord(args: seq<byte>, p: nat, abi: nat) returns (p': nat, abi': nat)
      requires scratch.Length == 256 && p < |args| && abi <= 256
      modifies scratch
      ensures var n := WordEnd(args, p) - p;
              if abi + n < 256 then
                p' == p + n && abi' == abi + n + 1 && Held(scratch[..], abi, args[p..p + n])
              else p <= p' <= p + n && abi' == 256
      ensures Agree(old(scratch[..]), scratch[..], 0, abi)
    {
      p', abi' := p, abi;
      ghost var n := WordEnd(args, p) - p;
      while p' < |args| && !IsBlank(args[p']) && abi' + 1 < 256
        invariant p <= p' <= p + n && abi' == abi + (p' - p) && abi' <= 256
        invariant forall x :: abi <= x < abi' ==> scratch[x] == args[p + (x - abi)]
        invariant forall x :: 0 <= x < abi ==> scratch[x] == old(scratch[x])
      {
        scratch[abi'] := args[p'];
        p', abi' := p' + 1, abi' + 1;
      }
      if abi' < 256 {
        scratch[abi'] := 0;
        abi' := abi' + 1;
      }
    }

    /** Copies the word at p as token number argc. While the words fit, one more is stored;
        the first that does not fit is lost, and all that follow start behind the buffer. */
    method TakeWord(args: seq<byte>, p: nat, abi: nat, argc: nat, ghost ws: seq<seq<byte>>, ghost lost: Option<nat>)
      returns (p': nat, abi': nat, ghost lost': Option<nat>)
      requires scratch.Length == 256 && starts.Length == 16 && p < |args| && argc < 16
      requires Taken(ws, scratch[..], starts[..], argc, abi, lost)
      requires lost.None? ==> argc - 1 < |ws| && ws[argc - 1] == args[p..WordEnd(args, p)]
      modifies scratch, starts
      ensures p' <= |args| && (lost'.None? ==> lost.None? && p' == WordEnd(args, p))
      ensures Taken(ws, scratch[..], starts[..], argc + 1, abi', lost')
    {
      ghost var k, m, st := argc - 1, scratch[..], starts[..];
      starts[argc] := abi;
      p', abi' := CopyWord(args, p, abi);
      lost' := lost;
      if lost.Some? {
        assert scratch[..] == m;
      } else {
        Extended(ws, m, scratch[..], st, starts[..], k);
        if Need(ws, argc) > 256 {
          lost' := Some(k);
          NeedGrows(ws, argc, |ws|);
        }
      }
    }

    method TokenizeInto(args: seq<byte>, ghost ws: seq<seq<byte>>) returns (argc: nat)
      requires scratch.Length == 256 && starts.Length == 16 && |ws| <= 15 && Ahead(args, ws, 0, 0)
      modifies scratch, starts
      ensures 1 <= argc <= 16
      ensures Need(ws, |ws|) <= 256 ==> argc == 1 + |ws| && Stored(scratch[..], starts[..], ws, |ws|)
      ensures Need(ws, |ws|) > 256 ==> Damaged(scratch[..], starts[..], ws)
    {
      argc := 1;
      var p, abi := 0, 0;
      ghost var lost := None;
      while p < |args| && argc < 16
        invariant 1 <= argc <= 16 && 0 <= p <= |args| && 0 <= abi
        invariant Taken(ws, scratch[..], starts[..], argc, abi, lost)
        invariant lost.None? ==> Ahead(args, ws, argc - 1, p)
        decreases 16 - argc
      {
        p := SkipBlanks(args, p);
        if p == |args| { break; }
        p, abi, lost := TakeWord(args, p, abi, argc, ws, lost);
        argc := argc + 1;
      }
      if lost.None? { NeedGrows(ws, argc - 1, |ws|); }
    }

    /** tokenize, called with the program name already in place. It stores the first 15 words
        if and only if they fit the buffer, which they do for up to 255 bytes. */
    method Tokenize(args: seq<byte>) returns (argc: nat)
      requires scratch.Length == 256 && starts.Length == 16
      modifies scratch, starts
      ensures 1 <= argc <= 16
      ensures var ws := Words(args);
              if Need(ws, |ws|) <= 256 then argc == 1 + |ws| && Stored(scratch[..], starts[..], ws, |ws|)
              else Damaged(scratch[..], starts[..], ws)
    {
      WordsAhead(args, Words(args), 0);
      argc := TokenizeInto(args, Words(args));
    }
  }

  // ---------------------------------------------------------------------
  // The stack frame: argc, argv[0..argc-1], NULL, envp[0] = NULL, and the texts above.
  // ---------------------------------------------------------------------

  /** Offset of text i in the page; the texts end at the top. */
  function TextOffset(argv: seq<seq<byte>>, i: nat): nat
    requires i <= |argv| && Need(argv, |argv|) <= 4096
  {
    NeedGrows(argv, i, |argv|);
    4096 - Need(argv, |argv|) + Need(argv, i)
  }

  /** Offset of the final stack pointer: argc + 3 words below the aligned start of the texts. */
  function FrameOffset(argv: seq<seq<byte>>): int
    requires Need(argv, |argv|) <= 4096
  {
    (4096 - Need(argv, |argv|)) / 16 * 16 - 8 * (|argv| + 3)
  }

  /** The frame stays inside its page. */
  predicate FrameFits(argv: seq<seq<byte>>) {
    1 <= |argv| <= 16 && Need(argv, |argv|) <= 4096 && FrameOffset(argv) >= 0
  }

  lemma {:induction false} NeedCons(w: seq<byte>, ws: seq<seq<byte>>, k: nat)
    requires k <= |ws|
    ensures Need([w] + ws, k + 1) == |w| + 1 + Need(ws, k)
  {
    if k > 0 { NeedCons(w, ws, k - 1); } else { assert Need([w] + ws, 0) == 0; }
  }

  /** Room for every command line of at most 255 bytes and program name of at most 3672. */
  lemma OrdinaryFits(name: seq<byte>, args: seq<byte>)
    requires |args| <= 255 && |name| <= 3672
    ensures Need(Words(args), |Words(args)|) <= 256 && FrameFits([name] + Words(args))
  {
    ShortLineFits(args);
    SmallFits(name, Words(args));
  }

  lemma SmallFits(name: seq<byte>, ws: seq<seq<byte>>)
    requires |name| <= 3672 && |ws| <= 15 && Need(ws, |ws|) <= 256
    ensures FrameFits([name] + ws)
  {
    NeedCons(name, ws, |ws|);
    RoomLeft([name] + ws, Need([name] + ws, |[name] + ws|));
  }

  lemma RoomLeft(argv: seq<seq<byte>>, need: nat)
    requires 1 <= |argv| <= 16 && need == Need(argv, |argv|) <= 3929
    ensures FrameFits(argv)
  {}

  function ZeroFrom(m: seq<byte>, i: nat): (j: nat)
    requires i <= |m|
    ensures i <= j <= |m|
    decreases |m| - i
  {
    if i == |m| || m[i] == 0 then i else ZeroFrom(m, i + 1)
  }

  /** The C string at position i. */
  function TextAt(m: seq<byte>, i: nat): seq<byte>
    requires i <= |m|
  {
    m[i..ZeroFrom(m, i)]
  }

  lemma {:induction false} ZeroBehind(m: seq<byte>, i: nat, w: seq<byte>, k: nat)
    requires Held(m, i, w) && NoZero(w) && k <= |w|
    ensures ZeroFrom(m, i + k) == i + |w|
    decreases |w| - k
  {
    if k < |w| {
      assert m[i + k] == w[k] && w[k] != 0;
      ZeroBehind(m, i, w, k + 1);
    }
  }

  lemma HeldIsRead(m: seq<byte>, i: nat, w: seq<byte>)
    requires Held(m, i, w) && NoZero(w)
    ensures TextAt(m, i) == w
  {
    ZeroBehind(m, i, w, 0);
  }

  /** Element i of the pointer array behind the count at the given offset. */
  function Pointer(m: seq<byte>, at: nat, i: nat): nat
    requires at + 8 * i + 16 <= |m|
  {
    Load(m, at + 8 * (i + 1), 8)
  }

  predicate InPage(m: seq<byte>, base: nat, p: nat) { base <= p < base + |m| }

  /** What the start-up code hands to main: [rsp] texts, each found through a pointer of the
      array at rsp + 8. None if a pointer leads out of the page. */
  ghost function SeenByMain(m: seq<byte>, base: nat, rsp: nat): Option<seq<seq<byte>>> {
    if rsp < base || rsp - base + 8 > |m| then None
    else
      var at := rsp - base;
      var argc := Load(m, at, 8);
      if at + 8 + 8 * argc > |m| || exists i :: 0 <= i < argc && !InPage(m, base, Pointer(m, at, i)) then None
      else Some(seq(argc, i requires 0 <= i < argc => TextAt(m, Pointer(m, at, i) - base)))
  }

  /** Word number i of the frame. */
  ghost predicate WordAt(m: seq<byte>, at: nat, i: nat, v: nat) { at + 8 * i + 8 <= |m| && Load(m, at + 8 * i, 8) == v }

  ghost predicate TextIn(m: seq<byte>, argv: seq<seq<byte>>, k: nat)
    requires k < |argv| && Need(argv, |argv|) <= 4096
  {
    Held(m, TextOffset(argv, k), argv[k])
  }

  ghost predicate PointerIn(m: seq<byte>, base: nat, argv: seq<seq<byte>>, at: nat, k: nat)
    requires k < |argv| && Need(argv, |argv|) <= 4096
  {
    WordAt(m, at, k + 1, base + TextOffset(argv, k))
  }

  /** The texts from number i on are in place. */
  ghost predicate TextsIn(m: seq<byte>, argv: seq<seq<byte>>, i: nat)
    requires Need(argv, |argv|) <= 4096
  {
    forall k {:trigger TextIn(m, argv, k)} :: i <= k < |argv| ==> TextIn(m, argv, k)
  }

  ghost predicate PointersIn(m: seq<byte>, base: nat, argv: seq<seq<byte>>, at: nat, i: nat)
    requires Need(argv, |argv|) <= 4096
  {
    forall k {:trigger PointerIn(m, base, argv, at, k)} :: i <= k < |argv| ==> PointerIn(m, base, argv, at, k)
  }

  /** The frame for argv is in place. */
  ghost predicate FrameIn(m: seq<byte>, base: nat, argv: seq<seq<byte>>)
    requires FrameFits(argv)
  {
    var at := FrameOffset(argv);
    TextsIn(m, argv, 0) && PointersIn(m, base, argv, at, 0) && WordAt(m, at, 0, |argv|) &&
    WordAt(m, at, |argv| + 1, 0) && WordAt(m, at, |argv| + 2, 0)
  }

  /** Reading the frame back gives the program name and the words of the command line. */
  lemma FrameRoundTrip(m: seq<byte>, base: nat, argv: seq<seq<byte>>)
    requires |m| == 4096 && FrameFits(argv) && FrameIn(m, base, argv)
    requires forall i :: 0 <= i < |argv| ==> NoZero(argv[i])
    ensures SeenByMain(m, base, base + FrameOffset(argv)) == Some(argv)
  {
    var at := FrameOffset(argv);
    assert WordAt(m, at, 0, |argv|);
    forall i | 0 <= i < |argv|
      ensures InPage(m, base, Pointer(m, at, i)) && TextAt(m, Pointer(m, at, i) - base) == argv[i]
    {
      assert PointerIn(m, base, argv, at, i) && TextIn(m, argv, i);
      PointerReads(m, base, at, i, TextOffset(argv, i), argv[i]);
    }
    assert seq(|argv|, i requires 0 <= i < |argv| => TextAt(m, Pointer(m, at, i) - base)) == argv;
  }

  lemma PointerReads(m: seq<byte>, base: nat, at: nat, i: nat, t: nat, w: seq<byte>)
    requires WordAt(m, at, i + 1, base + t) && Held(m, t, w) && NoZero(w)
    ensures InPage(m, base, Pointer(m, at, i)) && TextAt(m, Pointer(m, at, i) - base) == w
  {
    HeldIsRead(m, t, w);
  }

  /** The pointer area ends below the texts. */
  lemma AreasDisjoint(argv: seq<seq<byte>>)
    requires FrameFits(argv)
    ensures FrameOffset(argv) + 8 * (|argv| + 3) <= TextOffset(argv, 0)
  {}

  /** The final stack pointer is a multiple of 16, as the start-up convention wants it, exactly for
      an odd number of arguments. */
  lemma FrameAligned(base: nat, argv: seq<seq<byte>>)
    requires base % 4096 == 0 && FrameFits(argv)
    ensures (base + FrameOffset(argv)) % 16 == 0 <==> |argv| % 2 == 1
  {
    var top, n := (4096 - Need(argv, |argv|)) / 16, |argv|;
    assert base + FrameOffset(argv) == 16 * (256 * (base / 4096) + top) - 8 * (n + 3);
    HalfUnits(256 * (base / 4096) + top, n + 3);
  }

  lemma HalfUnits(q: nat, k: nat)
    ensures (16 * q - 8 * k) % 16 == 0 <==> k % 2 == 0
  {
    var h, r := k / 2, k % 2;
    RestOf16(16 * q - 8 * k, q - h - r, 8 * r);
  }

  lemma RestOf16(x: int, w: int, c: nat)
    requires x == 16 * w + c && c < 16
    ensures x % 16 == c
  {}

  /** Where the texts to push come from: the name, and the words in the token buffer. */
  ghost predicate Sources(name: seq<byte>, scratch: seq<byte>, starts: seq<nat>, argv: seq<seq<byte>>) {
    1 <= |argv| <= |starts| && Held(name, 0, argv[0]) &&
    forall j :: 1 <= j < |argv| ==> Held(scratch, starts[j], argv[j])
  }

  class StackPage {
    const page: array<byte>
    const base: nat
    const tokenizer: Tokenizer

    ghost predicate Valid() {
      page.Length == 4096 && base % 4096 == 0 && base + 4096 <= 0x1_0000_0000_0000_0000 &&
      tokenizer.scratch.Length == 256 && tokenizer.starts.Length == 16 &&
      page != tokenizer.scratch
    }

    constructor (base: nat)
      requires base % 4096 == 0 && base + 4096 <= 0x1_0000_0000_0000_0000
      ensures Valid() && this.base == base && fresh(page) && fresh(tokenizer) && fresh(tokenizer.scratch)
    {
      page, this.base := new byte[4096], base;
      tokenizer := new Tokenizer();
    }

    /** Pushes one zero-terminated text, found at the given place of src. */
    method PushText(sp: nat, src: array<byte>, from: nat, ghost w: seq<byte>) returns (sp': nat)
      requires page.Length == 4096 && src != page && Held(src[..], from, w) && NoZero(w) && |w| + 1 <= sp <= 4096
      modifies page
      ensures sp' == sp - (|w| + 1) && Held(page[..], sp', w) && OnlyIn(old(page[..]), page[..], sp', sp)
    {
      var len := 0;
      while src[from + len] != 0
        invariant 0 <= len <= |w|
        invariant len < |w| ==> src[..][from + len] == w[len] && w[len] != 0
        decreases |w| - len
      {
        assert src[..][from + len] == src[from + len];
        len := len + 1;
      }
      assert src[..][from + len] == 0;
      sp' := sp - (len + 1);
      for j := 0 to len
        invariant forall x :: 0 <= x < 4096 ==> page[x] == if sp' <= x < sp' + j then w[x - sp'] else old(page[x])
      {
        assert src[..][from + j] == w[j];
        page[sp' + j] := src[from + j];
      }
      page[sp' + len] := 0;
      assert forall j :: 0 <= j < |w| ==> page[..][sp' + j] == w[j];
      assert page[..][sp' + |w|] == 0;
    }

    /** Pushes the texts, last one first, and records where each went. */
    method PushTexts(name: array<byte>, argc: nat, ptrs: array<nat>, ghost argv: seq<seq<byte>>) returns (sp: nat)
      requires Valid() && name != page && ptrs.Length == 16
      requires FrameFits(argv) && argc == |argv| && forall i :: 0 <= i < |argv| ==> NoZero(argv[i])
      requires Sources(name[..], tokenizer.scratch[..], tokenizer.starts[..], argv)
      requires ptrs != tokenizer.starts
      modifies page, ptrs
      ensures sp == TextOffset(argv, 0) && TextsIn(page[..], argv, 0)
      ensures forall k :: 0 <= k < argc ==> ptrs[k] == base + TextOffset(argv, k)
      ensures Agree(old(page[..]), page[..], 0, sp)
    {
      sp := 4096;
      var i := argc;
      while i > 0
        invariant 0 <= i <= argc && sp == TextOffset(argv, i) && TextsIn(page[..], argv, i)
        invariant forall k :: i <= k < argc ==> ptrs[k] == base + TextOffset(argv, k)
        invariant Agree(old(page[..]), page[..], 0, sp)
        invariant Sources(name[..], tokenizer.scratch[..], tokenizer.starts[..], argv)
      {
        i := i - 1;
        ghost var m := page[..];
        NeedGrows(argv, i + 1, |argv|);
        assert Need(argv, i + 1) == Need(argv, i) + |argv[i]| + 1;
        var src, from := name, 0;
        if i > 0 { src, from := tokenizer.scratch, tokenizer.starts[i]; }
        assert Held(src[..], from, argv[i]);
        sp := PushText(sp, src, from, argv[i]);
        ptrs[i] := base + sp;
        TextsKept(m, page[..], argv, i);
      }
    }

    method PushWord(sp: nat, v: nat) returns (sp': nat)
      requires page.Length == 4096 && 8 <= sp <= 4096 && v < 0x1_0000_0000_0000_0000
      modifies page
      ensures sp' == sp - 8 && WordAt(page[..], sp', 0, v) && OnlyIn(old(page[..]), page[..], sp', sp)
    {
      sp' := sp - 8;
      Pow256Values();
      StoreLoad(page[..], sp', v, 8);
      StoreWord(page, sp', v, 8);
    }

    /** Pushes the pointers, last one first, below the two zero words. */
    method PushPointers(top: nat, argc: nat, ptrs: array<nat>, ghost argv: seq<seq<byte>>) returns (sp: nat)
      requires Valid() && FrameFits(argv) && argc == |argv| && ptrs.Length == 16
      requires top == FrameOffset(argv) + 8 * (|argv| + 1) && TextsIn(page[..], argv, 0)
      requires WordAt(page[..], FrameOffset(argv), |argv| + 1, 0) && WordAt(page[..], FrameOffset(argv), |argv| + 2, 0)
      requires forall k :: 0 <= k < argc ==> ptrs[k] == base + TextOffset(argv, k)
      modifies page
      ensures sp == FrameOffset(argv) + 8 && TextsIn(page[..], argv, 0)
      ensures PointersIn(page[..], base, argv, FrameOffset(argv), 0)
      ensures WordAt(page[..], FrameOffset(argv), |argv| + 1, 0) && WordAt(page[..], FrameOffset(argv), |argv| + 2, 0)
      ensures Agree(old(page[..]), page[..], 0, sp)
    {
      sp := top;
      ghost var at := FrameOffset(argv);
      var i := argc;
      while i > 0
        invariant 0 <= i <= argc && sp == at + 8 * (i + 1)
        invariant TextsIn(page[..], argv, 0) && PointersIn(page[..], base, argv, at, i)
        invariant WordAt(page[..], at, |argv| + 1, 0) && WordAt(page[..], at, |argv| + 2, 0)
        invariant Agree(old(page[..]), page[..], 0, sp)
      {
        i := i - 1;
        ghost var m := page[..];
        NeedGrows(argv, i + 1, |argv|);
        AreasDisjoint(argv);
        sp := PushWord(sp, ptrs[i]);
        AboveKept(m, page[..], base, argv, i + 1, i + 1);
        assert PointerIn(page[..], base, argv, at, i);
      }
    }

    /** Aligns the stack pointer and pushes everything below the texts. */
    method PushFrame(top: nat, argc: nat, ptrs: array<nat>, ghost argv: seq<seq<byte>>) returns (sp: nat)
      requires Valid() && FrameFits(argv) && argc == |argv| && ptrs.Length == 16
      requires top == TextOffset(argv, 0) && TextsIn(page[..], argv, 0)
      requires forall k :: 0 <= k < argc ==> ptrs[k] == base + TextOffset(argv, k)
      modifies page
      ensures sp == FrameOffset(argv) && FrameIn(page[..], base, argv)
      ensures Agree(old(page[..]), page[..], 0, sp)
    {
      ghost var at, m := FrameOffset(argv), page[..];
      sp := top / 16 * 16;
      sp := PushWord(sp, 0);
      ghost var m1 := page[..];
      AboveKept(m, m1, base, argv, argc + 2, argc);
      sp := PushWord(sp, 0);
      ghost var m2 := page[..];
      AboveKept(m1, m2, base, argv, argc + 1, argc);
      sp := PushPointers(sp, argc, ptrs, argv);
      ghost var m3 := page[..];
      sp := PushWord(sp, argc);
      AboveKept(m3, page[..], base, argv, 0, 0);
    }

    method Fill()
      requires page.Length == 4096
      modifies page
      ensures forall x :: 0 <= x < 4096 ==> page[x] == 0xCC
    {
      for i := 0 to 4096
        invariant forall x :: 0 <= x < i ==> page[x] == 0xCC
      {
        page[i] := 0xCC;
      }
    }

    /** usermode_run_with_args up to the jump. The program finds its name and the first 15
        words of the command line, a NULL behind them and an empty environment; texts and
        pointers do not overlap and nothing below the stack pointer was touched. */
    method Build(name: array?<byte>, args: seq<byte>, ghost text: seq<byte>) returns (rsp: nat)
      requires Valid() && name != page && name != tokenizer.scratch && NoZero(text) && NoZero(args)
      requires if name == null then text == [] else Held(name[..], 0, text)
      requires Need(Words(args), |Words(args)|) <= 256 && FrameFits([text] + Words(args))
      modifies page, tokenizer.scratch, tokenizer.starts
      ensures var argv := [text] + Words(args);
              rsp == base + FrameOffset(argv) && SeenByMain(page[..], base, rsp) == Some(argv) &&
              FrameOffset(argv) + 8 * (|argv| + 3) <= TextOffset(argv, 0) &&
              WordAt(page[..], FrameOffset(argv), |argv| + 1, 0) && WordAt(page[..], FrameOffset(argv), |argv| + 2, 0) &&
              forall x :: 0 <= x < FrameOffset(argv) ==> page[x] == 0xCC
    {
      WordsAhead(args, Words(args), 0);
      ArgvNoZero(text, args);
      rsp := BuildFrom(name, args, text, Words(args));
    }

    method BuildFrom(name: array?<byte>, args: seq<byte>, ghost text: seq<byte>, ghost ws: seq<seq<byte>>)
      returns (rsp: nat)
      requires Valid() && name != page && name != tokenizer.scratch
      requires if name == null then text == [] else Held(name[..], 0, text)
      requires Ahead(args, ws, 0, 0) && Need(ws, |ws|) <= 256 && FrameFits([text] + ws)
      requires forall k :: 0 <= k < |[text] + ws| ==> NoZero(([text] + ws)[k])
      modifies page, tokenizer.scratch, tokenizer.starts
      ensures var argv := [text] + ws;
              rsp == base + FrameOffset(argv) && SeenByMain(page[..], base, rsp) == Some(argv) &&
              FrameOffset(argv) + 8 * (|argv| + 3) <= TextOffset(argv, 0) &&
              WordAt(page[..], FrameOffset(argv), |argv| + 1, 0) && WordAt(page[..], FrameOffset(argv), |argv| + 2, 0) &&
              forall x :: 0 <= x < FrameOffset(argv) ==> page[x] == 0xCC
    {
      Fill();
      var first := name;
      if name == null { first := new byte[1](_ => 0); }
      var argc := tokenizer.TokenizeInto(args, ws);
      SourcesFrom(first[..], text, tokenizer.scratch[..], tokenizer.starts[..], ws);
      rsp := PushAll(first, argc, [text] + ws);
    }

    method PushAll(name: array<byte>, argc: nat, ghost argv: seq<seq<byte>>) returns (rsp: nat)
      requires Valid() && name != page
      requires FrameFits(argv) && argc == |argv| && forall i :: 0 <= i < |argv| ==> NoZero(argv[i])
      requires Sources(name[..], tokenizer.scratch[..], tokenizer.starts[..], argv)
      modifies page
      ensures rsp == base + FrameOffset(argv) && SeenByMain(page[..], base, rsp) == Some(argv)
      ensures FrameOffset(argv) + 8 * (|argv| + 3) <= TextOffset(argv, 0)
      ensures WordAt(page[..], FrameOffset(argv), |argv| + 1, 0) && WordAt(page[..], FrameOffset(argv), |argv| + 2, 0)
      ensures Agree(old(page[..]), page[..], 0, FrameOffset(argv))
    {
      var ptrs := new nat[16];
      var sp := PushTexts(name, argc, ptrs, argv);
      AreasDisjoint(argv);
      sp := PushFrame(sp, argc, ptrs, argv);
      FrameRoundTrip(page[..], base, argv);
      rsp := base + sp;
    }
  }

  lemma SourcesFrom(name: seq<byte>, text: seq<byte>, scratch: seq<byte>, starts: seq<nat>, ws: seq<seq<byte>>)
    requires Held(name, 0, text) && Stored(scratch, starts, ws, |ws|)
    ensures Sources(name, scratch, starts, [text] + ws)
  {
    forall j | 1 <= j < |ws| + 1 ensures Held(scratch, starts[j], ([text] + ws)[j]) {
      assert StoredAt(scratch, starts, ws, j - 1);
    }
  }

  lemma ArgvNoZero(text: seq<byte>, s: seq<byte>)
    requires NoZero(text) && NoZero(s)
    ensures forall k :: 0 <= k < |[text] + Words(s)| ==> NoZero(([text] + Words(s))[k])
  {
    forall k | 0 <= k < |Words(s)| ensures NoZero(Words(s)[k]) {
      assert Words(s)[k] == s[Start(s, k)..End(s, k + 1)];
    }
  }

  lemma WordKept(m: seq<byte>, m': seq<byte>, lo: nat, hi: nat, at: nat, i: nat, v: nat)
    requires OnlyIn(m, m', lo, hi) && hi <= at + 8 * i && WordAt(m, at, i, v)
    ensures WordAt(m', at, i, v)
  {
    LoadAgree(m, m', at + 8 * i, 8);
  }

  /** Writing word j of the frame keeps the texts, the pointers from number i on, and the words
      above, as long as word j lies below all of them. */
  lemma AboveKept(m: seq<byte>, m': seq<byte>, base: nat, argv: seq<seq<byte>>, j: nat, i: nat)
    requires FrameFits(argv) && j <= |argv| + 2 && i <= |argv| && (i < |argv| ==> j <= i) && TextsIn(m, argv, 0)
    requires OnlyIn(m, m', FrameOffset(argv) + 8 * j, FrameOffset(argv) + 8 * j + 8)
    requires PointersIn(m, base, argv, FrameOffset(argv), i)
    ensures TextsIn(m', argv, 0) && PointersIn(m', base, argv, FrameOffset(argv), i)
    ensures forall k, v {:trigger WordAt(m', FrameOffset(argv), k, v)} ::
      j < k <= |argv| + 2 && WordAt(m, FrameOffset(argv), k, v) ==> WordAt(m', FrameOffset(argv), k, v)
  {
    var at := FrameOffset(argv);
    AreasDisjoint(argv);
    forall k | 0 <= k < |argv| ensures TextIn(m', argv, k) {
      assert TextIn(m, argv, k);
      NeedGrows(argv, 0, k);
      HeldAgree(m, m', TextOffset(argv, k), argv[k]);
    }
    forall k | i <= k < |argv| ensures PointerIn(m', base, argv, at, k) {
      assert PointerIn(m, base, argv, at, k);
      WordKept(m, m', at + 8 * j, at + 8 * j + 8, at, k + 1, base + TextOffset(argv, k));
    }
    forall k: nat, v: nat | j < k <= |argv| + 2 && WordAt(m, at, k, v) ensures WordAt(m', at, k, v) {
      WordKept(m, m', at + 8 * j, at + 8 * j + 8, at, k, v);
    }
  }

  /** Pushing text i keeps the texts pushed before. */
  lemma TextsKept(m: seq<byte>, m': seq<byte>, argv: seq<seq<byte>>, i: nat)
    requires i < |argv| && Need(argv, |argv|) <= 4096 && TextsIn(m, argv, i + 1) && TextIn(m', argv, i)
    requires OnlyIn(m, m', 0, TextOffset(argv, i + 1))
    ensures TextsIn(m', argv, i)
  {
    forall k | i <= k < |argv| ensures TextIn(m', argv, k) {
      if k > i {
        assert TextIn(m, argv, k);
        NeedGrows(argv, i + 1, k);
        HeldAgree(m, m', TextOffset(argv, k), argv[k]);
      }
    }
  }
}
