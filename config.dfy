/**
  The library-wide USE_LEADING_END_BYTE setting of src/sliplib/slip.py and its
  scoped override use_leading_end_byte.  The body of a `with` block is any
  code; here it is a small statement language whose statements assign the
  flag, observe it (what constructing a Driver does), raise, or open a nested
  override.  Exec is the meaning of a block; Configuration.Run executes one
  on the object and is proved to agree with Exec.
 */
module SlipConfig {
  import SlipBytes

  /** A statement in the body of a `with use_leading_end_byte(...)` block. */
  datatype Stmt =
    | Assign(value: bool)                              // config.USE_LEADING_END_BYTE = value
    | Observe                                          // read the flag, as Driver() does
    | Raise                                            // an exception leaves the block
    | WithLeadingEndByte(value: bool, body: seq<Stmt>) // with use_leading_end_byte(value): body

  /** The flag after a block, the values observed in order, and whether an exception escaped. */
  datatype Outcome = Outcome(flag: bool, observed: seq<bool>, raised: bool)

  /** The meaning of running `stmts` with the flag initially `flag`. */
  function Exec(flag: bool, stmts: seq<Stmt>): Outcome
    decreases stmts
  {
    if stmts == [] then Outcome(flag, [], false)
    else
      match stmts[0]
      case Assign(v) => Exec(v, stmts[1..])
      case Observe =>
        var o := Exec(flag, stmts[1..]);
        Outcome(o.flag, [flag] + o.observed, o.raised)
      case Raise => Outcome(flag, [], true)
      case WithLeadingEndByte(v, body) =>
        var inner := Exec(v, body);
        if inner.raised then Outcome(flag, inner.observed, true)
        else
          var o := Exec(flag, stmts[1..]);
          Outcome(o.flag, inner.observed + o.observed, o.raised)
  }

  /** Running two blocks one after the other: the second runs only if the first did not raise. */
  lemma {:induction false} ExecAppend(flag: bool, a: seq<Stmt>, b: seq<Stmt>)
    ensures var x := Exec(flag, a);
            Exec(flag, a + b) ==
              if x.raised then x
              else var y := Exec(x.flag, b); Outcome(y.flag, x.observed + y.observed, y.raised)
    decreases a, 1
  {
    if a == [] {
      assert a + b == b;
    } else {
      assert (a + b)[0] == a[0] && (a + b)[1..] == a[1..] + b;
      match a[0]
      case Assign(v) =>
        ExecAppend(v, a[1..], b);
      case Observe =>
        ExecAppend(flag, a[1..], b);
      case Raise =>
      case WithLeadingEndByte(v, body) =>
        ExecAppendWith(flag, a, b);
    }
  }

  /** ExecAppend when the first block opens with a nested override. */
  lemma {:induction false} ExecAppendWith(flag: bool, a: seq<Stmt>, b: seq<Stmt>)
    requires a != [] && a[0].WithLeadingEndByte?
    ensures var x := Exec(flag, a);
            Exec(flag, a + b) ==
              if x.raised then x
              else var y := Exec(x.flag, b); Outcome(y.flag, x.observed + y.observed, y.raised)
    decreases a, 0
  {
    var rest := a[1..];
    assert (a + b)[0] == a[0] && (a + b)[1..] == rest + b;
    var inner := Exec(a[0].value, a[0].body);
    if !inner.raised {
      ExecAppend(flag, rest, b);
      var x := Exec(flag, rest);
      SlipBytes.AppendAssoc(inner.observed, x.observed, Exec(x.flag, b).observed);
    }
  }

  /**
    use_leading_end_byte(v): the body runs with the flag equal to v, and the
    previous value is back afterwards whether the body finished or raised.
   */
  lemma WithRestores(flag: bool, v: bool, body: seq<Stmt>)
    ensures Exec(flag, [WithLeadingEndByte(v, body)]).flag == flag
    ensures Exec(flag, [WithLeadingEndByte(v, body)]).observed == Exec(v, body).observed
    ensures Exec(flag, [WithLeadingEndByte(v, body)]).raised == Exec(v, body).raised
  {
  }

  /** A Driver constructed first thing in the body sees the temporary value. */
  lemma WithObservesValue(flag: bool, v: bool, rest: seq<Stmt>)
    ensures var o := Exec(flag, [WithLeadingEndByte(v, [Observe] + rest)]);
            o.observed != [] && o.observed[0] == v
  {
    assert ([Observe] + rest)[0] == Observe && ([Observe] + rest)[1..] == rest;
  }

  /**
    Nested overrides: the inner value holds inside the inner block, and the
    outer value is back after it, then the original after the outer block.
   */
  lemma WithNested(flag: bool, v: bool, w: bool)
    ensures var inner := [WithLeadingEndByte(w, [Observe])];
            var o := Exec(flag, [WithLeadingEndByte(v, [Observe] + inner + [Observe])]);
            o.observed == [v, w, v] && o.flag == flag && !o.raised
  {
    var inner := [WithLeadingEndByte(w, [Observe])];
    ExecAppend(v, [Observe] + inner, [Observe]);
    ExecAppend(v, [Observe], inner);
  }

  /** An exception raised in a nested block still restores every level on its way out. */
  lemma WithNestedRaise(flag: bool, v: bool, w: bool, rest: seq<Stmt>)
    ensures var o := Exec(flag, [WithLeadingEndByte(v, [WithLeadingEndByte(w, [Observe, Raise])] + rest)]);
            o.observed == [w] && o.flag == flag && o.raised
  {
    var body := [WithLeadingEndByte(w, [Observe, Raise])] + rest;
    assert body[0] == WithLeadingEndByte(w, [Observe, Raise]);
    assert [Observe, Raise][1..] == [Raise];
    assert Exec(w, [Raise]) == Outcome(w, [], true);
    assert Exec(w, [Observe, Raise]) == Outcome(w, [w], true);
    assert Exec(v, body) == Outcome(v, [w], true);
  }

  /** The global configuration object; only the leading-END flag can change. */
  class Configuration {
    var useLeadingEndByte: bool

    /** USE_LEADING_END_BYTE is False until someone sets it. */
    constructor()
      ensures !useLeadingEndByte
    {
      useLeadingEndByte := false;
    }

    /** The USE_LEADING_END_BYTE setter. */
    method SetUseLeadingEndByte(value: bool)
      modifies this
      ensures useLeadingEndByte == value
    {
      useLeadingEndByte := value;
    }

    /**
      use_leading_end_byte(value) around `body`: save the current value, set
      `value`, run the body, and restore the saved value on both exits.
     */
    method UseLeadingEndByte(value: bool, body: seq<Stmt>) returns (observed: seq<bool>, raised: bool)
      modifies this
      ensures useLeadingEndByte == old(useLeadingEndByte)
      ensures observed == Exec(value, body).observed && raised == Exec(value, body).raised
      decreases body, 1
    {
      var current := useLeadingEndByte;
      SetUseLeadingEndByte(value);
      observed, raised := Run(body);
      // the `finally` clause runs on the normal exit and when the body raised
      SetUseLeadingEndByte(current);
    }

    /** Runs `stmts` on this configuration and reports what they observed and whether they raised. */
    method Run(stmts: seq<Stmt>) returns (observed: seq<bool>, raised: bool)
      modifies this
      ensures Exec(old(useLeadingEndByte), stmts) == Outcome(useLeadingEndByte, observed, raised)
      decreases stmts, 0
    {
      observed, raised := [], false;
      var i := 0;
      while i < |stmts| && !raised
        invariant 0 <= i <= |stmts|
        invariant var before := Exec(old(useLeadingEndByte), stmts[..i]);
                  before == Outcome(useLeadingEndByte, observed, raised)
        decreases |stmts| - i
      {
        ExecAppend(old(useLeadingEndByte), stmts[..i], [stmts[i]]);
        assert stmts[..i + 1] == stmts[..i] + [stmts[i]];
        match stmts[i] {
          case Assign(v) =>
            SetUseLeadingEndByte(v);
          case Observe =>
            observed := observed + [useLeadingEndByte];
          case Raise =>
            raised := true;
          case WithLeadingEndByte(v, body) =>
            var o, r := UseLeadingEndByte(v, body);
            observed, raised := observed + o, r;
        }
        i := i + 1;
      }
      assert stmts[..i] + stmts[i..] == stmts;
      ExecAppend(old(useLeadingEndByte), stmts[..i], stmts[i..]);
    }
  }
}
