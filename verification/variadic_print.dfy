/**
 `print_all_args(format, ...)` from variadic_func/multiple_types/main.c: a
 small interpreter that walks a NUL-terminated format string one character at
 a time and, for each tag, reads a fixed number of typed arguments and prints
 them. `d` reads an `int`, `c` reads an `int` (a promoted `char`) and prints
 it as a character, `f` reads a `double`, `A` reads an `int *` and then an
 `int` size and prints that many elements; any other character reads and
 prints nothing. After the last tag one newline is printed.

 The C function trusts its caller; here the walk reports the first read whose
 behaviour C leaves undefined, and `Matches` states, independently of the
 walk, what the caller must supply for there to be none.
 */
module VariadicPrint {
  import opened CInt
  import opened VaArgs

  const NUL: char := '\0'

  /**
   One `printf` call of `print_all_args`. The tag outputs stand for the
   printed value followed by one space (`"%d "`, `"%c "`, `"%f "`).
   */
  datatype Token =
    | IntTok(v: int32)       // "%d "
    | CharTok(code: uchar)   // "%c ": the int converted to unsigned char
    | DoubleTok(d: Double)   // "%f ": formatting not modelled
    | Newline                // the final "\n"

  /** The tokens printed so far and the next argument to read, or the read that is undefined. */
  datatype Outcome = Ok(out: seq<Token>, cursor: nat) | Stuck(why: Undefined)

  /** The `va_arg` reads one format character performs, in order. */
  function TagReads(tag: char): seq<ArgType> {
    if tag == 'd' then [IntType]
    else if tag == 'c' then [IntType]
    else if tag == 'f' then [DoubleType]
    else if tag == 'A' then [PtrType, IntType]
    else []
  }

  /** The characters of a C string before its terminating NUL. */
  function Tags(fmt: string): (tags: string)
    requires NUL in fmt
    ensures NUL !in tags && |tags| < |fmt|
  {
    if fmt[0] == NUL then []
    else
      assert fmt == [fmt[0]] + fmt[1..];
      [fmt[0]] + Tags(fmt[1..])
  }

  /** The tags are exactly the characters before the first NUL. */
  lemma {:induction false} TagsPrefix(fmt: string)
    requires NUL in fmt
    ensures var tags := Tags(fmt); fmt[|tags|] == NUL && fmt[..|tags|] == tags
  {
    if fmt[0] != NUL {
      assert fmt == [fmt[0]] + fmt[1..];
      TagsPrefix(fmt[1..]);
      var rest := Tags(fmt[1..]);
      assert fmt[..|rest| + 1] == [fmt[0]] + fmt[1..][..|rest|];
    }
  }

  /** Every `va_arg` read a sequence of tags performs, in order. */
  function Signature(tags: string): seq<ArgType> {
    if |tags| == 0 then [] else TagReads(tags[0]) + Signature(tags[1..])
  }

  /** The array passed as `ptr` has at least as many elements as the size passed after it. */
  ghost predicate ArrayFits(ptr: Arg, size: Arg) {
    ptr.PtrArg? && size.IntArg? && size.i <= |ptr.elems|
  }

  /**
   Read `j` of `sig`, with the reads starting at argument `cur`, finds an
   argument of the type it reads, and a pointer read is followed by a size
   its array can serve.
   */
  ghost predicate ReadFits(sig: seq<ArgType>, args: seq<Arg>, cur: nat, j: nat)
    requires j < |sig| && cur + |sig| <= |args|
  {
    && HasType(args[cur + j], sig[j])
    && (sig[j] == PtrType && j + 1 < |sig| ==> ArrayFits(args[cur + j], args[cur + j + 1]))
  }

  /** The arguments from position `cur` on supply every read of `sig`. */
  ghost predicate FitsAt(sig: seq<ArgType>, args: seq<Arg>, cur: nat) {
    && cur + |sig| <= |args|
    && forall j :: 0 <= j < |sig| ==> ReadFits(sig, args, cur, j)
  }

  /**
   The contract `print_all_args` silently relies on: `fmt` is a C string and
   the arguments supply every read its tags perform (section 7.16.1.1 of
   ISO/IEC 9899:2011 makes any other read undefined), with each array long
   enough for the loop over it. Extra arguments are allowed and ignored.
   */
  ghost predicate Matches(fmt: string, args: seq<Arg>) {
    NUL in fmt && FitsAt(Signature(Tags(fmt)), args, 0)
  }

  /** A single read fits exactly when the argument at the cursor exists and has the type read. */
  lemma FitsOne(t: ArgType, args: seq<Arg>, cur: nat)
    ensures FitsAt([t], args, cur) <==> cur < |args| && HasType(args[cur], t)
  {
    if cur < |args| {
      assert ReadFits([t], args, cur, 0) <==> HasType(args[cur], t);
    }
  }

  /** The two reads of tag `A` fit exactly when a pointer and then a size it can serve are passed. */
  lemma FitsArray(args: seq<Arg>, cur: nat)
    ensures FitsAt([PtrType, IntType], args, cur) <==>
      cur + 1 < |args| && HasType(args[cur], PtrType) && HasType(args[cur + 1], IntType)
      && ArrayFits(args[cur], args[cur + 1])
  {
    var sig := [PtrType, IntType];
    if cur + 1 < |args| {
      assert ReadFits(sig, args, cur, 0) <==> HasType(args[cur], PtrType) && ArrayFits(args[cur], args[cur + 1]);
      assert ReadFits(sig, args, cur, 1) <==> HasType(args[cur + 1], IntType);
      if ReadFits(sig, args, cur, 0) && ReadFits(sig, args, cur, 1) {
        forall j | 0 <= j < 2 ensures ReadFits(sig, args, cur, j) {
        }
      }
    }
  }

  /** Matches, with no argument left over. */
  ghost predicate MatchesExactly(fmt: string, args: seq<Arg>) {
    Matches(fmt, args) && |Signature(Tags(fmt))| == |args|
  }

  /** The loop of tag `A` from index `i` on: `arr[i]`, `arr[i + 1]`, ... while below `size`. */
  function ArrayLoop(elems: seq<int32>, size: int, i: nat): (toks: seq<Token>)
    requires size <= |elems| && i <= |elems|
    ensures |toks| == (if i < size then size - i else 0)
    ensures forall k :: 0 <= k < |toks| ==> toks[k] == IntTok(elems[i + k])
    decreases |elems| - i
  {
    if i < size then [IntTok(elems[i])] + ArrayLoop(elems, size, i + 1) else []
  }

  /** One iteration of the format loop: the tag `tag` with the argument cursor at `cur`. */
  function Step(tag: char, args: seq<Arg>, cur: nat): (o: Outcome)
    requires cur <= |args|
    ensures o.Ok? <==> FitsAt(TagReads(tag), args, cur)
    ensures o.Ok? ==> o.cursor == cur + |TagReads(tag)| && Newline !in o.out
    ensures o.Ok? && tag == 'd' ==>
      cur < |args| && args[cur].IntArg? && o.out == [IntTok(args[cur].i)]
    ensures o.Ok? && tag == 'c' ==>
      cur < |args| && args[cur].IntArg? && o.out == [CharTok(ToUnsignedChar(args[cur].i))]
    ensures o.Ok? && tag == 'f' ==>
      cur < |args| && args[cur].DoubleArg? && o.out == [DoubleTok(args[cur].d)]
    ensures o.Ok? && tag == 'A' ==>
      && cur + 1 < |args| && args[cur].PtrArg? && args[cur + 1].IntArg?
      && var elems, size := args[cur].elems, args[cur + 1].i;
      && size <= |elems|
      && |o.out| == (if size < 0 then 0 else size)
      && forall k :: 0 <= k < |o.out| ==> o.out[k] == IntTok(elems[k])
    ensures TagReads(tag) == [] ==> o == Ok([], cur)
  {
    FitsOne(IntType, args, cur);
    FitsOne(DoubleType, args, cur);
    FitsArray(args, cur);
    if tag == 'd' then
      match VaArg(args, cur, IntType)
      case Bad(why) => Stuck(why)
      case Got(a) => Ok([IntTok(a.i)], cur + 1)
    else if tag == 'c' then
      match VaArg(args, cur, IntType)
      case Bad(why) => Stuck(why)
      case Got(a) => Ok([CharTok(ToUnsignedChar(a.i))], cur + 1)
    else if tag == 'f' then
      match VaArg(args, cur, DoubleType)
      case Bad(why) => Stuck(why)
      case Got(a) => Ok([DoubleTok(a.d)], cur + 1)
    else if tag == 'A' then
      match VaArg(args, cur, PtrType)
      case Bad(why) => Stuck(why)
      case Got(ptr) =>
        match VaArg(args, cur + 1, IntType)
        case Bad(why) => Stuck(why)
        case Got(size) =>
          if size.i > |ptr.elems| then Stuck(OutOfBounds(cur, size.i))
          else
            Ok(ArrayLoop(ptr.elems, size.i, 0), cur + 2)
    else
      Ok([], cur)
  }

  /**
   The format loop from position `p` of the buffer `fmt`, with the argument
   cursor at `cur`: one Step per character until the NUL.
   */
  function Walk(fmt: string, p: nat, args: seq<Arg>, cur: nat): (o: Outcome)
    requires p <= |fmt| && NUL in fmt[p..] && cur <= |args|
    ensures o.Ok? ==> cur <= o.cursor <= |args|
    decreases |fmt| - p
  {
    if fmt[p] == NUL then Ok([], cur)
    else
      assert fmt[p..] == [fmt[p]] + fmt[p + 1..];
      match Step(fmt[p], args, cur)
      case Stuck(why) => Stuck(why)
      case Ok(out, next) =>
        match Walk(fmt, p + 1, args, next)
        case Stuck(why) => Stuck(why)
        case Ok(rest, last) => Ok(out + rest, last)
  }

  /**
   What each tag prints with the arguments `args`, as a function of the tag
   and the argument cursor: a step's output, nothing when that step is
   undefined.
   */
  function StepOuts(args: seq<Arg>): (char, nat) -> seq<Token> {
    (tag: char, cur: nat) => if cur <= |args| && Step(tag, args, cur).Ok? then Step(tag, args, cur).out else []
  }

  /** `outs` gives the output of every step with the arguments `args` that is defined. */
  ghost predicate StepsPrint(outs: (char, nat) -> seq<Token>, args: seq<Arg>) {
    forall tag: char, cur: nat :: cur <= |args| && Step(tag, args, cur).Ok? ==> outs(tag, cur) == Step(tag, args, cur).out
  }

  /** StepOuts gives the output of every defined step. */
  lemma StepOutsPrint(args: seq<Arg>)
    ensures StepsPrint(StepOuts(args), args)
  {
  }

  /** The argument cursor each of `tags` starts at, the first starting at `cur`. */
  function Cursors(tags: string, cur: nat): (cs: seq<nat>)
    ensures |cs| == |tags|
  {
    if |tags| == 0 then [] else [cur] + Cursors(tags[1..], cur + |TagReads(tags[0])|)
  }

  /** Tag `k` starts past the reads of the tags before it. */
  lemma CursorsAt(tags: string, cur: nat)
    ensures forall k :: 0 <= k < |tags| ==> Cursors(tags, cur)[k] == cur + |Signature(tags[..k])|
  {
    forall k | 0 <= k < |tags|
      ensures Cursors(tags, cur)[k] == cur + |Signature(tags[..k])|
    {
      CursorAt(tags, cur, k);
    }
  }

  /** CursorsAt for one tag, by induction on its position. */
  lemma {:induction false} CursorAt(tags: string, cur: nat, k: nat)
    requires k < |tags|
    ensures Cursors(tags, cur)[k] == cur + |Signature(tags[..k])|
    decreases k
  {
    if k == 0 {
      assert tags[..0] == [];
    } else {
      var t, rest := tags[0], tags[1..];
      var n := cur + |TagReads(t)|;
      CursorAt(rest, n, k - 1);
      var before := tags[..k];
      assert before[0] == t && before[1..] == rest[..k - 1];
      assert Signature(before) == TagReads(t) + Signature(rest[..k - 1]);
    }
  }

  /** What `tags` print when tag `k` at cursor `cs[k]` prints `outs(tags[k], cs[k])`, joined in tag order. */
  function Printed(tags: string, cs: seq<nat>, outs: (char, nat) -> seq<Token>): seq<Token>
    requires |cs| == |tags|
  {
    if |tags| == 0 then [] else outs(tags[0], cs[0]) + Printed(tags[1..], cs[1..], outs)
  }

  /** A defined walk's first step and what remains after it. */
  lemma WalkSplit(fmt: string, p: nat, args: seq<Arg>, cur: nat)
    requires p < |fmt| && fmt[p] != NUL && NUL in fmt[p..] && cur <= |args|
    requires Walk(fmt, p, args, cur).Ok?
    ensures NUL in fmt[p + 1..]
    ensures var step := Step(fmt[p], args, cur);
      && step.Ok? && step.cursor == cur + |TagReads(fmt[p])| <= |args| && Walk(fmt, p + 1, args, step.cursor).Ok?
      && Walk(fmt, p, args, cur).out == step.out + Walk(fmt, p + 1, args, step.cursor).out
  {
    assert fmt[p..] == [fmt[p]] + fmt[p + 1..];
  }

  /**
   A defined walk prints what the remaining tags print, each tag a step at
   the cursor the tags before it leave, joined in tag order.
   */
  lemma {:induction false} WalkOutput(fmt: string, p: nat, args: seq<Arg>, cur: nat, outs: (char, nat) -> seq<Token>)
    requires p <= |fmt| && NUL in fmt[p..] && cur <= |args|
    requires Walk(fmt, p, args, cur).Ok? && StepsPrint(outs, args)
    ensures var tags := Tags(fmt[p..]);
      Walk(fmt, p, args, cur).out == Printed(tags, Cursors(tags, cur), outs)
    decreases |fmt| - p
  {
    if fmt[p] == NUL {
      assert Tags(fmt[p..]) == [];
    } else {
      var t := fmt[p];
      WalkSplit(fmt, p, args, cur);
      var step := Step(t, args, cur);
      var tags, rest := Tags(fmt[p..]), Tags(fmt[p + 1..]);
      var printed := Printed(rest, Cursors(rest, step.cursor), outs);
      WalkOutput(fmt, p + 1, args, step.cursor, outs);
      assert outs(t, cur) == step.out;
      assert Walk(fmt, p, args, cur).out == outs(t, cur) + printed;
      TagsUnfold(fmt, p);
      PrintedCons(tags, outs, cur);
      assert Printed(tags, Cursors(tags, cur), outs) == outs(t, cur) + printed;
    }
  }

  /** Whether the step of a tag with the arguments `args` is defined, as a function of the tag and the cursor. */
  function StepDefined(args: seq<Arg>): (char, nat) -> bool {
    (tag: char, cur: nat) => cur <= |args| && Step(tag, args, cur).Ok?
  }

  /**
   In a defined call every tag's step is defined at the cursor it starts at,
   so each tag prints its step's output there.
   */
  lemma StepsDefined(fmt: string, args: seq<Arg>)
    requires Matches(fmt, args)
    ensures var tags := Tags(fmt);
      forall k :: 0 <= k < |tags| ==>
        var c := Cursors(tags, 0)[k];
        c <= |args| && Step(tags[k], args, c).Ok? && StepOuts(args)(tags[k], c) == Step(tags[k], args, c).out
  {
    assert fmt[0..] == fmt;
    WalkMatches(fmt, 0, args, 0);
    var tags := Tags(fmt);
    WalkSteps(fmt, 0, args, 0, StepDefined(args));
    forall k | 0 <= k < |tags|
      ensures var c := Cursors(tags, 0)[k];
        c <= |args| && Step(tags[k], args, c).Ok? && StepOuts(args)(tags[k], c) == Step(tags[k], args, c).out
    {
      EveryTagAt(tags, 0, StepDefined(args), k);
    }
  }

  /** `ok` holds of each of `tags` at the cursor it starts at, the first starting at `cur`. */
  ghost predicate EveryTag(tags: string, cur: nat, ok: (char, nat) -> bool) {
    |tags| == 0 || (ok(tags[0], cur) && EveryTag(tags[1..], cur + |TagReads(tags[0])|, ok))
  }

  /** What EveryTag states of tag `k`, by induction on `k`. */
  lemma {:induction false} EveryTagAt(tags: string, cur: nat, ok: (char, nat) -> bool, k: nat)
    requires EveryTag(tags, cur, ok) && k < |tags|
    ensures ok(tags[k], Cursors(tags, cur)[k])
    decreases k
  {
    if k > 0 {
      var rest, n := tags[1..], cur + |TagReads(tags[0])|;
      EveryTagAt(rest, n, ok, k - 1);
      assert tags[k] == rest[k - 1];
    }
  }

  /**
   Every tag after position `p` of a defined walk has a defined step at the
   cursor it starts at: `ok` holds there for any `ok` that holds of every
   defined step.
   */
  lemma {:induction false} WalkSteps(fmt: string, p: nat, args: seq<Arg>, cur: nat, ok: (char, nat) -> bool)
    requires p <= |fmt| && NUL in fmt[p..] && cur <= |args| && Walk(fmt, p, args, cur).Ok?
    requires forall tag: char, c: nat :: c <= |args| && Step(tag, args, c).Ok? ==> ok(tag, c)
    ensures EveryTag(Tags(fmt[p..]), cur, ok)
    decreases |fmt| - p
  {
    if fmt[p] == NUL {
      assert Tags(fmt[p..]) == [];
    } else {
      var t := fmt[p];
      WalkSplit(fmt, p, args, cur);
      var step := Step(t, args, cur);
      WalkSteps(fmt, p + 1, args, step.cursor, ok);
      TagsUnfold(fmt, p);
    }
  }

  /** What a tag and the tags after it print: the first tag's output, then the rest's. */
  lemma PrintedCons(tags: string, outs: (char, nat) -> seq<Token>, cur: nat)
    requires |tags| > 0
    ensures var rest, n := tags[1..], cur + |TagReads(tags[0])|;
      Printed(tags, Cursors(tags, cur), outs) == outs(tags[0], cur) + Printed(rest, Cursors(rest, n), outs)
  {
    var cs := Cursors(tags[1..], cur + |TagReads(tags[0])|);
    assert Cursors(tags, cur) == [cur] + cs;
    assert ([cur] + cs)[1..] == cs;
  }

  /** The tags of a C string suffix: its first character, then the tags after it. */
  lemma TagsUnfold(fmt: string, p: nat)
    requires p < |fmt| && fmt[p] != NUL && NUL in fmt[p..]
    ensures NUL in fmt[p + 1..]
    ensures var tags := Tags(fmt[p..]);
      |tags| > 0 && tags[0] == fmt[p] && tags[1..] == Tags(fmt[p + 1..])
  {
    assert fmt[p..] == [fmt[p]] + fmt[p + 1..];
  }

  /**
   `print_all_args(fmt, args...)` with every undefined read reported: the
   output of all tags followed by one newline, and the number of arguments
   read. It is defined exactly when the caller kept the contract Matches.
   */
  function Run(fmt: string, args: seq<Arg>): (o: Outcome)
    requires NUL in fmt
    ensures o.Ok? <==> Matches(fmt, args)
    ensures o.Ok? ==> o.cursor == |Signature(Tags(fmt))|
    ensures o.Ok? ==> |o.out| > 0 && o.out[|o.out| - 1] == Newline && Newline !in o.out[..|o.out| - 1]
    ensures o.Ok? ==> var tags := Tags(fmt);
      o.out[..|o.out| - 1] == Printed(tags, Cursors(tags, 0), StepOuts(args))
  {
    assert fmt[0..] == fmt;
    WalkMatches(fmt, 0, args, 0);
    match Walk(fmt, 0, args, 0)
    case Stuck(why) => Stuck(why)
    case Ok(out, cursor) =>
      WalkCursor(fmt, 0, args, 0);
      StepOutsPrint(args);
      WalkOutput(fmt, 0, args, 0, StepOuts(args));
      assert (out + [Newline])[..|out|] == out;
      Ok(out + [Newline], cursor)
  }

  /**
   `print_all_args` as C runs it: only callable under its contract, it
   prints every tag's output and then exactly one newline.
   */
  function PrintAllArgs(fmt: string, args: seq<Arg>): (out: seq<Token>)
    requires Matches(fmt, args)
    ensures |out| > 0 && out[|out| - 1] == Newline && Newline !in out[..|out| - 1]
    ensures var tags := Tags(fmt);
      out == Printed(tags, Cursors(tags, 0), StepOuts(args)) + [Newline]
    ensures Run(fmt, args) == Ok(out, |Signature(Tags(fmt))|)
  {
    Run(fmt, args).out
  }

  /** Splitting the reads after a tag: no array read is cut from the size read after it. */
  lemma FitsAppend(r: seq<ArgType>, s: seq<ArgType>, args: seq<Arg>, cur: nat)
    requires |r| == 0 || r[|r| - 1] != PtrType
    ensures FitsAt(r + s, args, cur) <==> FitsAt(r, args, cur) && FitsAt(s, args, cur + |r|)
  {
    var rs := r + s;
    var next := cur + |r|;
    if cur + |rs| <= |args| {
      forall j | 0 <= j < |r|
        ensures ReadFits(rs, args, cur, j) <==> ReadFits(r, args, cur, j)
      {
        assert rs[j] == r[j];
        if j + 1 < |r| {
          assert rs[j + 1] == r[j + 1];
        }
      }
      forall j | 0 <= j < |s|
        ensures ReadFits(s, args, next, j) <==> ReadFits(rs, args, cur, |r| + j)
      {
        assert rs[|r| + j] == s[j];
      }
      if FitsAt(r, args, cur) && FitsAt(s, args, cur + |r|) {
        forall j | 0 <= j < |rs|
          ensures ReadFits(rs, args, cur, j)
        {
          if j >= |r| {
            assert ReadFits(s, args, next, j - |r|);
          }
        }
      }
      if FitsAt(rs, args, cur) {
        forall j | 0 <= j < |s|
          ensures ReadFits(s, args, next, j)
        {
          assert ReadFits(rs, args, cur, |r| + j);
        }
      }
    }
  }

  /** No tag's reads end with the pointer read. */
  lemma TagReadsEnd(tag: char)
    ensures |TagReads(tag)| == 0 || TagReads(tag)[|TagReads(tag)| - 1] != PtrType
  {
  }

  /** A defined walk reads one argument per read of the remaining tags and prints no newline. */
  lemma {:induction false} WalkCursor(fmt: string, p: nat, args: seq<Arg>, cur: nat)
    requires p <= |fmt| && NUL in fmt[p..] && cur <= |args|
    requires Walk(fmt, p, args, cur).Ok?
    ensures Walk(fmt, p, args, cur).cursor == cur + |Signature(Tags(fmt[p..]))|
    ensures Newline !in Walk(fmt, p, args, cur).out
    decreases |fmt| - p
  {
    if fmt[p] == NUL {
      assert Tags(fmt[p..]) == [];
    } else {
      SignatureUnfold(fmt, p);
      WalkUnfold(fmt, p, args, cur);
      var step := Step(fmt[p], args, cur);
      WalkCursor(fmt, p + 1, args, step.cursor);
    }
  }

  /** One unfolding of the walk: the first tag's step, then the walk after it. */
  lemma WalkUnfold(fmt: string, p: nat, args: seq<Arg>, cur: nat)
    requires p < |fmt| && fmt[p] != NUL && NUL in fmt[p..] && cur <= |args|
    ensures NUL in fmt[p + 1..]
    ensures var step := Step(fmt[p], args, cur);
      Walk(fmt, p, args, cur).Ok? <==> step.Ok? && Walk(fmt, p + 1, args, step.cursor).Ok?
  {
    assert fmt[p..] == [fmt[p]] + fmt[p + 1..];
  }

  /** The reads of a C string suffix are those of its first tag, then those of the rest. */
  lemma SignatureUnfold(fmt: string, p: nat)
    requires p < |fmt| && fmt[p] != NUL && NUL in fmt[p..]
    ensures NUL in fmt[p + 1..]
    ensures Signature(Tags(fmt[p..])) == TagReads(fmt[p]) + Signature(Tags(fmt[p + 1..]))
  {
    assert fmt[p..] == [fmt[p]] + fmt[p + 1..];
    var rest := Tags(fmt[p + 1..]);
    assert Tags(fmt[p..]) == [fmt[p]] + rest;
    assert ([fmt[p]] + rest)[1..] == rest;
  }

  /** The walk from position `p` is defined exactly when the arguments from `cur` fit the remaining tags. */
  lemma {:induction false} WalkMatches(fmt: string, p: nat, args: seq<Arg>, cur: nat)
    requires p <= |fmt| && NUL in fmt[p..] && cur <= |args|
    ensures Walk(fmt, p, args, cur).Ok? <==> FitsAt(Signature(Tags(fmt[p..])), args, cur)
    decreases |fmt| - p
  {
    if fmt[p] == NUL {
      assert Tags(fmt[p..]) == [];
    } else {
      var t := fmt[p];
      var r, s := TagReads(t), Signature(Tags(fmt[p + 1..]));
      var step := Step(t, args, cur);
      SignatureUnfold(fmt, p);
      WalkUnfold(fmt, p, args, cur);
      assert FitsAt(r + s, args, cur) <==> step.Ok? && FitsAt(s, args, cur + |r|) by {
        TagReadsEnd(t);
        FitsAppend(r, s, args, cur);
      }
      if step.Ok? {
        var n := cur + |r|;
        assert step.cursor == n;
        WalkMatches(fmt, p + 1, args, n);
        assert Walk(fmt, p, args, cur).Ok? <==> FitsAt(s, args, n);
      }
    }
  }

  /**
   The number of arguments a defined call reads: one per `d`, `c` and `f`,
   two per `A`, none for any other character of the format.
   */
  lemma {:induction false} SignatureCount(tags: string)
    ensures |Signature(tags)| ==
      multiset(tags)['d'] + multiset(tags)['c'] + multiset(tags)['f'] + 2 * multiset(tags)['A']
  {
    if |tags| > 0 {
      var t, rest := tags[0], tags[1..];
      SignatureCount(rest);
      assert tags == [t] + rest;
      assert |Signature(tags)| == |TagReads(t)| + |Signature(rest)|;
      var m := multiset(tags);
      assert m == multiset([t]) + multiset(rest);
      TagReadsCount(t);
    }
  }

  /** The reads of a single character, counted as in SignatureCount. */
  lemma TagReadsCount(t: char)
    ensures var m := multiset([t]);
      |TagReads(t)| == m['d'] + m['c'] + m['f'] + 2 * m['A']
  {
    var m := multiset([t]);
    assert forall x :: m[x] == (if x == t then 1 else 0);
  }

  /** A defined call reads exactly #d + #c + #f + 2 * #A arguments of the format's tags. */
  lemma ArgumentsConsumed(fmt: string, args: seq<Arg>)
    requires Matches(fmt, args)
    ensures var tags := Tags(fmt);
      Run(fmt, args).cursor ==
        multiset(tags)['d'] + multiset(tags)['c'] + multiset(tags)['f'] + 2 * multiset(tags)['A']
  {
    SignatureCount(Tags(fmt));
  }

  /** The walk from before the first NUL never reaches what is appended after the buffer. */
  lemma {:induction false} WalkIgnoresAfterNul(fmt: string, junk: string, p: nat, args: seq<Arg>, cur: nat)
    requires p <= |fmt| && NUL in fmt[p..] && cur <= |args|
    ensures (fmt + junk)[p..] == fmt[p..] + junk
    ensures Walk(fmt + junk, p, args, cur) == Walk(fmt, p, args, cur)
    decreases |fmt| - p
  {
    assert (fmt + junk)[p..] == fmt[p..] + junk;
    if fmt[p] != NUL {
      assert fmt[p..] == [fmt[p]] + fmt[p + 1..];
      var step := Step(fmt[p], args, cur);
      if step.Ok? {
        WalkIgnoresAfterNul(fmt, junk, p + 1, args, step.cursor);
      }
    }
  }

  /**
   The format loop stops at the first NUL of the buffer: whatever follows it
   is never looked at.
   */
  lemma StopsAtNul(fmt: string, junk: string, args: seq<Arg>)
    requires NUL in fmt
    ensures NUL in fmt + junk
    ensures Tags(fmt + junk) == Tags(fmt)
    ensures Run(fmt + junk, args) == Run(fmt, args)
  {
    assert (fmt + junk)[0..] == fmt + junk && fmt[0..] == fmt;
    WalkIgnoresAfterNul(fmt, junk, 0, args, 0);
    TagsIgnoreAfterNul(fmt, junk);
  }

  /** Appending to a C string does not change its tags. */
  lemma {:induction false} TagsIgnoreAfterNul(fmt: string, junk: string)
    requires NUL in fmt
    ensures NUL in fmt + junk
    ensures Tags(fmt + junk) == Tags(fmt)
  {
    assert (fmt + junk)[0] == fmt[0];
    if fmt[0] != NUL {
      assert fmt == [fmt[0]] + fmt[1..];
      assert (fmt + junk)[1..] == fmt[1..] + junk;
      TagsIgnoreAfterNul(fmt[1..], junk);
    }
  }

  /** A step reads only the arguments below the cursor it leaves. */
  lemma StepFrame(tag: char, args: seq<Arg>, other: seq<Arg>, cur: nat)
    requires cur <= |args| && cur <= |other|
    requires Step(tag, args, cur).Ok?
    requires var c := Step(tag, args, cur).cursor; c <= |other| && other[..c] == args[..c]
    ensures Step(tag, other, cur) == Step(tag, args, cur)
  {
    var c := Step(tag, args, cur).cursor;
    forall k | cur <= k < c
      ensures other[k] == args[k]
    {
      assert other[k] == other[..c][k];
      assert args[k] == args[..c][k];
    }
  }

  /** A defined walk gives the same result on any argument list that agrees on the arguments it reads. */
  lemma {:induction false} WalkFrame(fmt: string, p: nat, args: seq<Arg>, other: seq<Arg>, cur: nat)
    requires p <= |fmt| && NUL in fmt[p..] && cur <= |args| && cur <= |other|
    requires Walk(fmt, p, args, cur).Ok?
    requires var c := Walk(fmt, p, args, cur).cursor; c <= |other| && other[..c] == args[..c]
    ensures Walk(fmt, p, other, cur) == Walk(fmt, p, args, cur)
    decreases |fmt| - p
  {
    if fmt[p] != NUL {
      var c := Walk(fmt, p, args, cur).cursor;
      WalkUnfold(fmt, p, args, cur);
      var step := Step(fmt[p], args, cur);
      var next := step.cursor;
      assert Walk(fmt, p, args, cur).cursor == Walk(fmt, p + 1, args, next).cursor;
      PrefixAgree(args, other, c, next);
      StepFrame(fmt[p], args, other, cur);
      WalkFrame(fmt, p + 1, args, other, next);
    }
  }

  /** Two lists that agree on a prefix agree on every shorter prefix. */
  lemma PrefixAgree(args: seq<Arg>, other: seq<Arg>, c: nat, n: nat)
    requires n <= c <= |args| && c <= |other| && other[..c] == args[..c]
    ensures other[..n] == args[..n]
  {
    assert other[..n] == other[..c][..n] && args[..n] == args[..c][..n];
  }

  /**
   A defined call depends on no argument past the ones it reads: any argument
   list that agrees on those gives the same output, whatever values (zero
   included) come after them.
   */
  lemma UnreadArguments(fmt: string, args: seq<Arg>, other: seq<Arg>)
    requires Matches(fmt, args)
    requires var c := |Signature(Tags(fmt))|; c <= |other| && other[..c] == args[..c]
    ensures Run(fmt, other) == Run(fmt, args)
  {
    assert fmt[0..] == fmt;
    WalkMatches(fmt, 0, args, 0);
    WalkCursor(fmt, 0, args, 0);
    WalkFrame(fmt, 0, args, other, 0);
  }

  const FdcFormat: string := "fdc\0"
  const FdcArgs: seq<Arg> := [DoubleArg(Double("2.71")), IntArg(100), IntArg('z' as int)]

  /** `print_all_args("fdc", 2.71, 100, 'z')` keeps the contract and prints `2.710000 100 z` and a newline. */
  lemma FdcCall()
    ensures MatchesExactly(FdcFormat, FdcArgs)
    ensures PrintAllArgs(FdcFormat, FdcArgs) ==
      [DoubleTok(Double("2.71")), IntTok(100), CharTok(122), Newline]
  {
    var fmt := FdcFormat;
    assert fmt[1..] == "dc\0" && fmt[1..][1..] == "c\0" && fmt[1..][1..][1..] == "\0";
    assert Tags(fmt) == "fdc";
    assert Signature("fdc") == [DoubleType, IntType, IntType];
    assert fmt[0..] == fmt && fmt[2..] == "c\0" && fmt[3..] == "\0";
    assert Walk(fmt, 3, FdcArgs, 3) == Ok([], 3);
    assert Walk(fmt, 2, FdcArgs, 2) == Ok([CharTok(122)], 3);
    assert Walk(fmt, 1, FdcArgs, 1) == Ok([IntTok(100), CharTok(122)], 3);
    assert Walk(fmt, 0, FdcArgs, 0) == Ok([DoubleTok(Double("2.71")), IntTok(100), CharTok(122)], 3);
  }

  const DcAdfFormat: string := "dcAdf\0"
  const DcAdfArgs: seq<Arg> :=
    [IntArg(42), IntArg('a' as int), PtrArg([1, 2, 3, 4]), SizeArg(4), DoubleArg(Double("3.14"))]

  /**
   `print_all_args("dcAdf", 42, 'a', arr, sizeof(arr) / sizeof(arr[0]), 3.14)`
   breaks the contract: its tags read six arguments but five are passed, and
   the fourth is a `size_t` where the `A` tag reads an `int`. The walk
   reports that read.
   */
  lemma DcAdfCall()
    ensures |Signature(Tags(DcAdfFormat))| == 6 > |DcAdfArgs|
    ensures !Matches(DcAdfFormat, DcAdfArgs)
    ensures Run(DcAdfFormat, DcAdfArgs) == Stuck(WrongType(3, IntType))
  {
    var fmt := DcAdfFormat;
    assert fmt[1..] == "cAdf\0" && fmt[1..][1..] == "Adf\0" && fmt[1..][1..][1..] == "df\0";
    assert fmt[1..][1..][1..][1..] == "f\0" && fmt[1..][1..][1..][1..][1..] == "\0";
    assert Tags(fmt) == "dcAdf";
    assert Signature("dcAdf") == [IntType, IntType, PtrType, IntType, IntType, DoubleType];
    assert fmt[0..] == fmt && fmt[2..] == "Adf\0";
    assert Step('A', DcAdfArgs, 2) == Stuck(WrongType(3, IntType));
    assert Walk(fmt, 2, DcAdfArgs, 2) == Stuck(WrongType(3, IntType));
    assert Walk(fmt, 1, DcAdfArgs, 1) == Stuck(WrongType(3, IntType));
    assert Walk(fmt, 0, DcAdfArgs, 0) == Stuck(WrongType(3, IntType));
  }

  const DcAfFormat: string := "dcAf\0"

  /**
   The format `"dcAf"` with the arguments as `main` passes them: one tag per
   argument, but the array size is still a `size_t` where the `A` tag reads an
   `int`, so the walk gets stuck on the same read.
   */
  lemma SizeArgCall()
    ensures |Signature(Tags(DcAfFormat))| == |DcAdfArgs|
    ensures !Matches(DcAfFormat, DcAdfArgs)
    ensures Run(DcAfFormat, DcAdfArgs) == Stuck(WrongType(3, IntType))
  {
    var fmt := DcAfFormat;
    assert fmt[1..] == "cAf\0" && fmt[1..][1..] == "Af\0" && fmt[1..][1..][1..] == "f\0";
    assert fmt[1..][1..][1..][1..] == "\0";
    assert Tags(fmt) == "dcAf";
    assert Signature("dcAf") == [IntType, IntType, PtrType, IntType, DoubleType];
    assert fmt[0..] == fmt && fmt[2..] == "Af\0";
    assert Step('A', DcAdfArgs, 2) == Stuck(WrongType(3, IntType));
    assert Walk(fmt, 2, DcAdfArgs, 2) == Stuck(WrongType(3, IntType));
    assert Walk(fmt, 1, DcAdfArgs, 1) == Stuck(WrongType(3, IntType));
    assert Walk(fmt, 0, DcAdfArgs, 0) == Stuck(WrongType(3, IntType));
    assert Run(fmt, DcAdfArgs) == Stuck(WrongType(3, IntType));
  }

  /** The arguments of the first call with the array size converted to `int`. */
  const DcAfArgs: seq<Arg> :=
    [IntArg(42), IntArg('a' as int), PtrArg([1, 2, 3, 4]), IntArg(4), DoubleArg(Double("3.14"))]

  /** The walk of `"dcAf"` from its `A` tag on prints the array and then the `double`. */
  lemma DcAfTail()
    ensures NUL in DcAfFormat[2..]
    ensures Walk(DcAfFormat, 2, DcAfArgs, 2) ==
      Ok([IntTok(1), IntTok(2), IntTok(3), IntTok(4), DoubleTok(Double("3.14"))], 5)
  {
    var fmt, args := DcAfFormat, DcAfArgs;
    assert fmt[2..] == "Af\0" && fmt[3..] == "f\0" && fmt[4..] == "\0";
    var arr := [IntTok(1), IntTok(2), IntTok(3), IntTok(4)];
    assert ArrayLoop([1, 2, 3, 4], 4, 0) == arr;
    assert Step('A', args, 2) == Ok(arr, 4);
    assert Walk(fmt, 4, args, 5) == Ok([], 5);
    assert Walk(fmt, 3, args, 4) == Ok([DoubleTok(Double("3.14"))], 5);
    assert arr + [DoubleTok(Double("3.14"))] == [IntTok(1), IntTok(2), IntTok(3), IntTok(4), DoubleTok(Double("3.14"))];
  }

  /** The whole walk of `"dcAf"`: five reads, one per argument. */
  lemma DcAfWalk()
    ensures |Signature(Tags(DcAfFormat))| == 5
    ensures Walk(DcAfFormat, 0, DcAfArgs, 0) ==
      Ok([IntTok(42)] + ([CharTok(97)] + [IntTok(1), IntTok(2), IntTok(3), IntTok(4), DoubleTok(Double("3.14"))]), 5)
  {
    var fmt, args := DcAfFormat, DcAfArgs;
    assert fmt[1..] == "cAf\0" && fmt[1..][1..] == "Af\0" && fmt[1..][1..][1..] == "f\0";
    assert fmt[1..][1..][1..][1..] == "\0";
    assert Tags(fmt) == "dcAf";
    assert "dcAf"[1..] == "cAf" && "cAf"[1..] == "Af" && "Af"[1..] == "f" && "f"[1..] == "";
    assert fmt[0..] == fmt;
    var tail := [IntTok(1), IntTok(2), IntTok(3), IntTok(4), DoubleTok(Double("3.14"))];
    DcAfTail();
    assert Walk(fmt, 1, args, 1) == Ok([CharTok(97)] + tail, 5);
  }

  /**
   `print_all_args("dcAf", 42, 'a', arr, (int)(sizeof(arr) / sizeof(arr[0])), 3.14)`
   keeps the contract, reads every argument, and prints `42 a 1 2 3 4 3.140000`
   and a newline.
   */
  lemma DcAfCall()
    ensures MatchesExactly(DcAfFormat, DcAfArgs)
    ensures PrintAllArgs(DcAfFormat, DcAfArgs) ==
      [IntTok(42), CharTok(97), IntTok(1), IntTok(2), IntTok(3), IntTok(4), DoubleTok(Double("3.14")), Newline]
  {
    DcAfWalk();
    assert DcAfFormat[0..] == DcAfFormat;
    WalkMatches(DcAfFormat, 0, DcAfArgs, 0);
    DcAfOutput();
  }

  /** The output of the corrected call, written as one list. */
  lemma DcAfOutput()
    ensures [IntTok(42)] + ([CharTok(97)] + [IntTok(1), IntTok(2), IntTok(3), IntTok(4), DoubleTok(Double("3.14"))]) ==
      [IntTok(42), CharTok(97), IntTok(1), IntTok(2), IntTok(3), IntTok(4), DoubleTok(Double("3.14"))]
  {
  }
}
