/**
 * `error_chain_fmt` of src/routes/mod.rs: it writes an error and then every
 * error in its source chain to a formatter, one line per error.
 */
module Routes {
  import opened Wrappers
  import opened Common
  import opened Errors

  /** `std::fmt::Error`: the destination refused a write. */
  datatype FmtError = FmtError

  /**
   * The `std::fmt::Formatter` the text goes to. `out` is what the destination
   * has received, one entry per accepted `writeln!` (the text is
   * `Concat(out)`); `writes` counts the calls made so far; the destination
   * refuses the k-th call when `refuses(k)` holds.
   */
  class Formatter {
    var out: seq<string>
    var writes: nat
    const refuses: nat -> bool

    constructor (refuses: nat -> bool)
      ensures out == [] && writes == 0 && this.refuses == refuses
    {
      out := [];
      writes := 0;
      this.refuses := refuses;
    }

    /** `writeln!(f, "{}", s)`: appends `s` and a newline, or fails and appends nothing. */
    method WriteLine(s: string) returns (r: Result<(), FmtError>)
      modifies this
      ensures writes == old(writes) + 1
      ensures r.Ok? <==> !refuses(old(writes))
      ensures out == if r.Ok? then old(out) + [Line(s)] else old(out)
    {
      r := if refuses(writes) then Err(FmtError) else Ok(());
      if r.Ok? {
        out := out + [Line(s)];
      }
      writes := writes + 1;
    }
  }

  const CAUSED_BY: string := "Caused by:\n\t"

  /** What one `writeln!` appends: its text and a newline. */
  function Line(s: string): string {
    s + "\n"
  }

  /** The block written for one cause. */
  function CauseBlock(cause: string): string {
    Line(CAUSED_BY + cause)
  }

  function CauseBlocks(causes: seq<string>): (r: seq<string>)
    ensures |r| == |causes|
    ensures forall i :: 0 <= i < |causes| ==> r[i] == CauseBlock(causes[i])
  {
    seq(|causes|, i requires 0 <= i < |causes| => CauseBlock(causes[i]))
  }

  /** What the formatter receives, write by write: the error's text and a blank line,
    * then one block per cause, nearest cause first. */
  function Blocks(e: ErrorValue): seq<string> {
    [Line(e.message + "\n")] + CauseBlocks(Causes(e))
  }

  /** The whole text of a formatting that no write refused. */
  function Rendered(e: ErrorValue): string {
    Concat(Blocks(e))
  }

  /** Walking the source chain one step: the current error is the next cause. */
  lemma NextCause(current: Option<ErrorValue>, causes: seq<string>, done: nat)
    requires current.Some? && done <= |causes| && Messages(current) == causes[done..]
    ensures done < |causes| && causes[done] == current.value.message
    ensures Messages(current.value.source) == causes[done + 1..]
    ensures CauseBlocks(causes)[done] == Line(CAUSED_BY + current.value.message)
  {
    assert causes[done + 1..] == causes[done..][1..];
  }

  /**
   * What writing `blocks` one call at a time leaves behind, for a formatter
   * that had made `base` calls and received `start`: at least one and at
   * most `|blocks|` calls were made, every one but the last was accepted,
   * and the outcome is Ok exactly when the last was accepted too. Then the
   * formatter has received all of `blocks`; otherwise exactly the blocks
   * before the refused one, and nothing after it.
   */
  ghost predicate Wrote(blocks: seq<string>, refuses: nat -> bool, base: nat, writes: nat,
                        start: seq<string>, out: seq<string>, ok: bool)
  {
    && base < writes <= base + |blocks|
    && Accepted(refuses, base, writes - 1 - base)
    && (ok <==> !refuses(writes - 1))
    && (ok ==> writes == base + |blocks| && out == start + blocks)
    && (!ok ==> out == start + blocks[..writes - 1 - base])
  }

  /**
   * The same for a sequence of blocks that may be empty: when it is, no call
   * is made and the outcome is Ok.
   */
  ghost predicate WroteAll(blocks: seq<string>, refuses: nat -> bool, base: nat, writes: nat,
                           start: seq<string>, out: seq<string>, ok: bool)
  {
    if ok then writes == base + |blocks| && Accepted(refuses, base, |blocks|) && out == start + blocks
    else
      && base < writes <= base + |blocks|
      && Accepted(refuses, base, writes - 1 - base)
      && refuses(writes - 1)
      && out == start + blocks[..writes - 1 - base]
  }

  /** The `k` calls made after the first `base` were all accepted. */
  ghost predicate Accepted(refuses: nat -> bool, base: nat, k: int) {
    forall n :: base <= n < base + k ==> !refuses(n)
  }

  lemma AcceptedStep(refuses: nat -> bool, base: nat, k: nat)
    requires Accepted(refuses, base, k) && !refuses(base + k)
    ensures Accepted(refuses, base, k + 1)
  {
  }

  /** A first block written, and then the rest: together they are the whole sequence written. */
  lemma WroteCons(head: string, rest: seq<string>, refuses: nat -> bool, base: nat, writes: nat,
                  start: seq<string>, out: seq<string>, ok: bool)
    requires !refuses(base)
    requires WroteAll(rest, refuses, base + 1, writes, start + [head], out, ok)
    ensures Wrote([head] + rest, refuses, base, writes, start, out, ok)
  {
    var blocks := [head] + rest;
    if ok {
      assert start + [head] + rest == start + blocks;
    } else {
      var k := writes - 1 - (base + 1);
      assert blocks[..k + 1] == [head] + rest[..k];
      assert start + [head] + rest[..k] == start + blocks[..k + 1];
    }
  }

  /**
   * The `while let` loop of `error_chain_fmt`: one call per error of the
   * chain starting at `current`, until a call is refused or the chain ends.
   */
  method WriteCauses(current: Option<ErrorValue>, f: Formatter) returns (r: Result<(), FmtError>)
    modifies f
    ensures WroteAll(CauseBlocks(Messages(current)), f.refuses, old(f.writes), f.writes, old(f.out), f.out, r.Ok?)
  {
    ghost var base := f.writes;
    ghost var start := f.out;
    ghost var refuses := f.refuses;
    ghost var causes := Messages(current);
    ghost var blocks := CauseBlocks(causes);
    var next := current;
    ghost var done := 0;
    r := Ok(());
    while next.Some?
      invariant 0 <= done <= |causes|
      invariant Messages(next) == causes[done..]
      invariant f.writes == base + done
      invariant f.out == start + blocks[..done]
      invariant Accepted(refuses, base, done)
      invariant r.Ok?
      decreases |causes| - done
    {
      var cause := next.value;
      NextCause(next, causes, done);
      r := f.WriteLine(CAUSED_BY + cause.message);
      if r.Err? {
        return;
      }
      AcceptedStep(refuses, base, done);
      assert blocks[..done + 1] == blocks[..done] + [blocks[done]];
      next := cause.source;
      done := done + 1;
    }
    assert blocks[..done] == blocks;
  }

  /**
   * `error_chain_fmt(e, f)`. The formatter is called once per block of
   * `Blocks(e)` until one call is refused or all blocks are written.
   */
  method ErrorChainFmt(e: ErrorValue, f: Formatter) returns (r: Result<(), FmtError>)
    modifies f
    ensures Wrote(Blocks(e), f.refuses, old(f.writes), f.writes, old(f.out), f.out, r.Ok?)
    ensures r.Ok? ==> Concat(f.out) == Concat(old(f.out)) + Rendered(e)
  {
    ghost var base := f.writes;
    ghost var start := f.out;
    ghost var head := Line(e.message + "\n");
    r := f.WriteLine(e.message + "\n");
    if r.Err? {
      assert start == start + Blocks(e)[..0];
      return;
    }
    r := WriteCauses(e.source, f);
    WroteCons(head, CauseBlocks(Causes(e)), f.refuses, base, f.writes, start, f.out, r.Ok?);
    if r.Ok? {
      ConcatAppend(start, Blocks(e));
    }
  }

  lemma HeadLine(msg: string)
    ensures Line(msg + "\n") == msg + "\n\n"
  {
    AppendAssoc(msg, "\n", "\n");
    assert "\n" + "\n" == "\n\n";
  }

  /** The output opens with the error's own text and a blank line, and the cause blocks follow. */
  lemma RenderedStartsWithMessage(e: ErrorValue)
    ensures Rendered(e) == e.message + "\n\n" + Concat(CauseBlocks(Causes(e)))
  {
    HeadLine(e.message);
    var blocks := Blocks(e);
    assert blocks[1..] == CauseBlocks(Causes(e));
  }

  /** There is one block per error in the source chain, each naming its cause, in order. */
  lemma BlocksFollowChain(e: ErrorValue)
    ensures |Blocks(e)| == 1 + |Causes(e)|
    ensures forall i :: 0 <= i < |Causes(e)| ==> Blocks(e)[i + 1] == CAUSED_BY + Causes(e)[i] + "\n"
  {
  }

  /** An error without a source is rendered as its text followed by a blank line, and nothing more. */
  lemma NoSourceRendering(msg: string)
    ensures Rendered(ErrorValue(msg, None)) == msg + "\n\n"
  {
    RenderedStartsWithMessage(ErrorValue(msg, None));
  }

  /** Wrapping an error in a context adds exactly one block, in front of the old causes. */
  lemma ContextAddsOneCause(msg: string, inner: ErrorValue)
    ensures Rendered(Context(msg, inner)) == msg + "\n\n" + CauseBlock(inner.message) + Concat(CauseBlocks(Causes(inner)))
  {
    var causes := Causes(Context(msg, inner));
    assert causes == [inner.message] + Causes(inner);
    assert CauseBlocks(causes) == [CauseBlock(inner.message)] + CauseBlocks(Causes(inner));
    RenderedStartsWithMessage(Context(msg, inner));
    AppendAssoc(msg + "\n\n", CauseBlock(inner.message), Concat(CauseBlocks(Causes(inner))));
  }
}
