/** The per-branch question: prompt, read one byte, and either ask again (no
    byte, or '?' after which the help block is shown) or decode the byte into
    the answer. The program writes the retry as self-recursion; Resolve states
    it that way and HandleUserInput runs it as a loop over the console. */
module Prompt {
  import opened Cli
  import opened Terminal
  import opened Branches
  import opened Seqs

  /** How one question ends. InputExhausted is an artifact of the model: the
      model's input is finite, while the program would keep prompting. */
  datatype Reply = Chosen(action: Action) | Failed(error: CliError) | InputExhausted

  /** The reply to one question, how many read results it consumed, and what
      it wrote. */
  datatype Cycle = Cycle(reply: Reply, consumed: nat, output: seq<Line>)

  /** The byte of '?'. */
  const QuestionMark: Byte := 63

  /** The prompt shown for a branch. */
  function PromptOf(b: Branch): Line
  {
    Prompt(b.name, b.id[..10], b.time)
  }

  /** A read result after which the same branch is asked again. */
  predicate IsRetry(item: StdinItem)
  {
    item == Eof || item == Got(QuestionMark)
  }

  /** The reply a read result settles on when it is not a retry. */
  function Decode(item: StdinItem): (r: Reply)
    requires !IsRetry(item)
    ensures r != InputExhausted
    ensures item == ReadError ==> r == Failed(Io)
    ensures item.Got? ==> (r.Chosen? <==> CharOf(item.b) in "kdqu")
    ensures item.Got? && r.Chosen? ==> Key(r.action) == CharOf(item.b)
    ensures item.Got? && r.Failed? ==> r.error == InvalidInput(CharOf(item.b))
  {
    match item
    case ReadError => Failed(Io)
    case Got(x) =>
      match TryFrom(CharOf(x))
      case Ok(a) => Chosen(a)
      case Err(e) => Failed(e)
  }

  /** What one cycle writes: the prompt, then, when a byte was read, its
      echo, then, for '?', the help block. */
  function Written(b: Branch, item: StdinItem): seq<Line>
  {
    match item
    case Got(x) => [PromptOf(b), Echo(CharOf(x))] + (if x == QuestionMark then [Help] else [])
    case _ => [PromptOf(b)]
  }

  /** One question for branch `b` over the read results `input`: a cycle
      writes and reads, then asks again after a retry or settles on the
      reply; when the input runs out the question is left open. */
  function Resolve(input: seq<StdinItem>, b: Branch): (c: Cycle)
    ensures c.consumed <= |input|
    decreases |input|
  {
    if input == [] then
      Cycle(InputExhausted, 0, [PromptOf(b)])
    else if IsRetry(input[0]) then
      var c := Resolve(input[1..], b);
      Cycle(c.reply, c.consumed + 1, Written(b, input[0]) + c.output)
    else
      Cycle(Decode(input[0]), 1, Written(b, input[0]))
  }

  /** The reply is the decoding of the first read result that is not a
      retry, and exactly the results up to and including it are consumed;
      when every result is a retry, all are consumed and the input is
      exhausted. */
  lemma {:induction false} ResolveSettles(input: seq<StdinItem>, b: Branch)
    ensures var c := Resolve(input, b);
      && c.consumed <= |input|
      && (c.reply.InputExhausted? <==> forall i :: 0 <= i < |input| ==> IsRetry(input[i]))
      && (c.reply.InputExhausted? ==> c.consumed == |input|)
      && (!c.reply.InputExhausted? ==>
            && 0 < c.consumed
            && (forall i :: 0 <= i < c.consumed - 1 ==> IsRetry(input[i]))
            && !IsRetry(input[c.consumed - 1])
            && c.reply == Decode(input[c.consumed - 1]))
    decreases |input|
  {
    if input != [] && IsRetry(input[0]) {
      ResolveSettles(input[1..], b);
      var c, rest := Resolve(input, b), Resolve(input[1..], b);
      assert forall i :: 1 <= i < |input| ==> input[i] == input[1..][i - 1];
      if !c.reply.InputExhausted? {
        assert !IsRetry(input[1..][rest.consumed - 1]);
      }
    }
  }

  /** The characters of the Echo lines, in order. */
  function Echoes(out: seq<Line>): seq<char>
  {
    if out == [] then []
    else (if out[0].Echo? then [out[0].c] else []) + Echoes(out[1..])
  }

  /** The characters of the bytes read, in order. */
  function Typed(input: seq<StdinItem>): seq<char>
  {
    if input == [] then []
    else (if input[0].Got? then [CharOf(input[0].b)] else []) + Typed(input[1..])
  }

  lemma {:induction false} EchoesAppend(x: seq<Line>, y: seq<Line>)
    ensures Echoes(x + y) == Echoes(x) + Echoes(y)
  {
    if x != [] {
      assert (x + y)[0] == x[0];
      assert (x + y)[1..] == x[1..] + y;
      EchoesAppend(x[1..], y);
    } else {
      assert x + y == y;
    }
  }

  /** One cycle writes one prompt, first, and no other prompt. */
  lemma WrittenPrompt(b: Branch, item: StdinItem)
    ensures var w := Written(b, item);
      && w != [] && w[0] == PromptOf(b)
      && (forall l :: l in w && l.Prompt? ==> l == PromptOf(b))
      && multiset(w)[PromptOf(b)] == 1
  {
  }

  /** One cycle writes the help block once if it read '?', else not. */
  lemma WrittenHelp(b: Branch, item: StdinItem)
    ensures multiset(Written(b, item))[Help] == multiset([item])[Got(QuestionMark)]
  {
  }

  /** One cycle echoes the byte it read, if any, and nothing else. */
  lemma WrittenEchoes(b: Branch, item: StdinItem)
    ensures Echoes(Written(b, item)) == Typed([item])
  {
    var w := Written(b, item);
    assert [item][1..] == [];
    match item
    case Got(x) =>
      var help: seq<Line> := if x == QuestionMark then [Help] else [];
      assert Echoes(help) == [] by {
        if x == QuestionMark {
          assert help[1..] == [];
        }
      }
      assert w[1..] == [Echo(CharOf(x))] + help;
      assert w[1..][1..] == help;
    case _ =>
      assert w[1..] == [];
  }

  lemma TypedCons(s: seq<StdinItem>, n: nat)
    requires 0 < n <= |s|
    ensures Typed(s[..n]) == Typed([s[0]]) + Typed(s[1..][..n - 1])
  {
    assert s[..n][0] == s[0];
    assert s[..n][1..] == s[1..][..n - 1];
    assert [s[0]][1..] == [];
  }

  /** Every byte read is echoed, in the order read, and nothing else is. */
  lemma {:induction false} ResolveEchoes(input: seq<StdinItem>, b: Branch)
    ensures var c := Resolve(input, b); Echoes(c.output) == Typed(input[..c.consumed])
    decreases |input|
  {
    if input != [] {
      var c := Resolve(input, b);
      var w := Written(b, input[0]);
      WrittenEchoes(b, input[0]);
      if IsRetry(input[0]) {
        var rest := Resolve(input[1..], b);
        ResolveEchoes(input[1..], b);
        EchoesAppend(w, rest.output);
        TypedCons(input, c.consumed);
      } else {
        assert input[..c.consumed] == [input[0]];
      }
    } else {
      assert input[..0] == [];
    }
  }

  /** Every cycle writes one prompt for the same branch: one per read result
      consumed, plus one before the input ran out; the first write is a
      prompt. */
  lemma {:induction false} ResolvePrompts(input: seq<StdinItem>, b: Branch)
    ensures var c := Resolve(input, b);
      && c.output != [] && c.output[0] == PromptOf(b)
      && multiset(c.output)[PromptOf(b)] == c.consumed + (if c.reply.InputExhausted? then 1 else 0)
    decreases |input|
  {
    if input != [] {
      WrittenPrompt(b, input[0]);
      if IsRetry(input[0]) {
        ResolvePrompts(input[1..], b);
      }
    }
  }

  /** No prompt for another branch is written while asking about `b`. */
  lemma {:induction false} ResolveOnlyPrompts(input: seq<StdinItem>, b: Branch)
    ensures forall l :: l in Resolve(input, b).output && l.Prompt? ==> l == PromptOf(b)
    decreases |input|
  {
    if input != [] {
      WrittenPrompt(b, input[0]);
      if IsRetry(input[0]) {
        ResolveOnlyPrompts(input[1..], b);
      }
    }
  }

  /** The help block is written once for every '?' read. */
  lemma {:induction false} ResolveHelps(input: seq<StdinItem>, b: Branch)
    ensures var c := Resolve(input, b);
      multiset(c.output)[Help] == multiset(input[..c.consumed])[Got(QuestionMark)]
    decreases |input|
  {
    if input != [] {
      var c := Resolve(input, b);
      var w := Written(b, input[0]);
      WrittenHelp(b, input[0]);
      if IsRetry(input[0]) {
        var rest := Resolve(input[1..], b);
        ResolveHelps(input[1..], b);
        assert c.output == w + rest.output;
        assert multiset(c.output)[Help] == multiset(w)[Help] + multiset(rest.output)[Help];
        PrefixMultiset(input, c.consumed);
      } else {
        assert input[..c.consumed] == [input[0]];
      }
    } else {
      assert input[..0] == [];
    }
  }

  /** One cycle's writes and read: the prompt, then (unless the input has
      run out) one read result, its echo when it is a byte, and the help
      block when that byte is '?'. */
  method Ask(con: Console, b: Branch) returns (item: StdinItem, exhausted: bool)
    modifies con
    ensures exhausted <==> old(con.input) == []
    ensures exhausted ==> con.input == old(con.input) && con.output == old(con.output) + [PromptOf(b)]
    ensures !exhausted ==>
      && item == old(con.input)[0] && con.input == old(con.input)[1..]
      && con.output == old(con.output) + Written(b, item)
  {
    con.Write([PromptOf(b)]);
    exhausted := con.input == [];
    if exhausted {
      item := Eof;
      return;
    }
    item := con.Next();
    match item
    case Got(x) =>
      con.Write([Echo(CharOf(x))]);
      if CharOf(x) == '?' {
        con.Write([Help]);
      }
    case _ =>
  }

  /** Asks about branch `b` until an answer or an error, reading from and
      writing to the console. */
  method HandleUserInput(con: Console, b: Branch) returns (reply: Reply)
    modifies con
    ensures var c := Resolve(old(con.input), b);
      && reply == c.reply
      && con.input == old(con.input)[c.consumed..]
      && con.output == old(con.output) + c.output
  {
    ghost var input0, output0 := con.input, con.output;
    ghost var whole := Resolve(input0, b);
    ghost var n: nat, written: seq<Line> := 0, [];
    while true
      invariant n <= |input0| && con.input == input0[n..]
      invariant con.output == output0 + written
      invariant whole.reply == Resolve(con.input, b).reply
      invariant whole.consumed == n + Resolve(con.input, b).consumed
      invariant whole.output == written + Resolve(con.input, b).output
      decreases |con.input|
    {
      ghost var rest := con.input;
      var item, exhausted := Ask(con, b);
      if exhausted {
        Associative(output0, written, [PromptOf(b)]);
        return InputExhausted;
      }
      ghost var cycle := Written(b, item);
      Associative(output0, written, cycle);
      match item {
        case ReadError =>
          return Failed(Io);
        case Got(x) =>
          if CharOf(x) != '?' {
            match TryFrom(CharOf(x))
            case Ok(a) => return Chosen(a);
            case Err(e) => return Failed(e);
          }
        case Eof =>
      }
      assert IsRetry(rest[0]) && rest[1..] == con.input;
      Associative(written, cycle, Resolve(con.input, b).output);
      n, written := n + 1, written + cycle;
      assert con.input == input0[n..];
    }
  }
}
