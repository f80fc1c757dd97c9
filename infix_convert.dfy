/** The conversions of the infix converter (Exa2/pol_model.py,
    infix_to_postfix and infix_to_prefix) as functions on token lists: a
    shunting-yard pass over the tokens with an operator stack, then the
    operators left on the stack. The prefix conversion runs the same pass
    over the reversed tokens with '(' and ')' exchanged, pops only on a
    strictly greater precedence, and reverses the output.

    The operator stack is a sequence with its top at index 0. */
module InfixConvert {
  import opened Text

  /** _precedence: '+' and '-' bind least, then '*' and '/', then '^';
      anything else (a parenthesis or a longer token among them) has
      precedence 0. */
  function Precedence(op: string): (r: nat)
    ensures r <= 3
  {
    if |op| == 1 then CharPrecedence(op[0]) else 0
  }

  function CharPrecedence(c: char): nat
  {
    if c == '+' || c == '-' then 1
    else if c == '*' || c == '/' then 2
    else if c == '^' then 3
    else 0
  }

  /** Python's str.isalnum on a token. */
  predicate IsAlnumToken(t: string)
  {
    |t| > 0 && forall i :: 0 <= i < |t| ==> IsAlnum(t[i])
  }

  /** The tokens both conversions copy to the output at once: names,
      numerals and signed numerals. */
  predicate IsOperand(t: string)
  {
    IsAlnumToken(t) || (|t| > 0 && t[0] == '-' && IsNumeral(t[1..]))
  }

  datatype Shunt = Shunt(out: seq<string>, ops: seq<string>)

  /** An incoming operator of precedence p pops a stacked operator of at
      least that precedence (postfix) or of greater precedence (prefix). */
  predicate PopsBefore(top: string, p: nat, strict: bool)
  {
    if strict then Precedence(top) > p else Precedence(top) >= p
  }

  /** How many operators the incoming one pops: the longest run from the
      top that PopsBefore allows. */
  function PopCount(ops: seq<string>, p: nat, strict: bool): (n: nat)
    ensures n <= |ops|
  {
    if ops != [] && PopsBefore(ops[0], p, strict) then 1 + PopCount(ops[1..], p, strict) else 0
  }

  /** PopCount is the longest such run: every operator it pops outranks
      the incoming one, and the first one left does not. */
  lemma {:induction false} PopCountSpec(ops: seq<string>, p: nat, strict: bool)
    ensures forall i :: 0 <= i < PopCount(ops, p, strict) ==> PopsBefore(ops[i], p, strict)
    ensures PopCount(ops, p, strict) < |ops| ==> !PopsBefore(ops[PopCount(ops, p, strict)], p, strict)
  {
    if ops != [] && PopsBefore(ops[0], p, strict) {
      PopCountSpec(ops[1..], p, strict);
    }
  }

  /** Where the topmost '(' is, or the stack height when there is none. */
  function OpenIndex(ops: seq<string>): (n: nat)
    ensures n <= |ops|
  {
    if ops == [] || ops[0] == "(" then 0 else 1 + OpenIndex(ops[1..])
  }

  /** OpenIndex finds the topmost '(': none above it, and it is one. */
  lemma {:induction false} OpenIndexSpec(ops: seq<string>)
    ensures forall i :: 0 <= i < OpenIndex(ops) ==> ops[i] != "("
    ensures OpenIndex(ops) < |ops| ==> ops[OpenIndex(ops)] == "("
  {
    if ops != [] && ops[0] != "(" {
      OpenIndexSpec(ops[1..]);
    }
  }

  /** One token of the pass. */
  function Step(st: Shunt, token: string, strict: bool): Shunt
  {
    if IsOperand(token) then Shunt(st.out + [token], st.ops)
    else if token == "(" then Shunt(st.out, ["("] + st.ops)
    else if token == ")" then CloseParen(st)
    else PushOperator(st, token, strict)
  }

  /** A ')' pops every operator above the topmost '(' to the output, then
      drops that '(' (if there is one). */
  function CloseParen(st: Shunt): Shunt
  {
    var n := OpenIndex(st.ops);
    Shunt(st.out + st.ops[..n], if n < |st.ops| then st.ops[n + 1..] else [])
  }

  /** An operator pops the operators PopCount allows, then goes on the
      stack. */
  function PushOperator(st: Shunt, token: string, strict: bool): Shunt
  {
    var n := PopCount(st.ops, Precedence(token), strict);
    Shunt(st.out + st.ops[..n], [token] + st.ops[n..])
  }

  function Run(st: Shunt, tokens: seq<string>, strict: bool): Shunt
    decreases |tokens|
  {
    if tokens == [] then st else Run(Step(st, tokens[0], strict), tokens[1..], strict)
  }

  /** The pass, then every operator left on the stack from the top down. */
  function Converted(tokens: seq<string>, strict: bool): seq<string>
  {
    var st := Run(Shunt([], []), tokens, strict);
    st.out + st.ops
  }

  /** The tokens of infix_to_postfix. */
  function PostfixTokens(tokens: seq<string>): seq<string>
  {
    Converted(tokens, false)
  }

  /** s[::-1] */
  function Reverse<T>(s: seq<T>): seq<T>
  {
    seq(|s|, i requires 0 <= i < |s| => s[|s| - 1 - i])
  }

  lemma ReverseCons<T>(s: seq<T>)
    requires s != []
    ensures Reverse(s) == Reverse(s[1..]) + [s[0]]
  {
  }

  function Mirror(t: string): string
  {
    if t == "(" then ")" else if t == ")" then "(" else t
  }

  /** Every '(' turned into ')' and the other way round. */
  function Swapped(tokens: seq<string>): seq<string>
  {
    seq(|tokens|, i requires 0 <= i < |tokens| => Mirror(tokens[i]))
  }

  /** The tokens of infix_to_prefix. */
  function PrefixTokens(tokens: seq<string>): seq<string>
  {
    Reverse(Converted(Swapped(Reverse(tokens)), true))
  }

  // ---------------------------------------------------------------------
  // Operands keep their order

  function Operands(ts: seq<string>): seq<string>
  {
    if ts == [] then [] else (if IsOperand(ts[0]) then [ts[0]] else []) + Operands(ts[1..])
  }

  lemma {:induction false} OperandsAppend(a: seq<string>, b: seq<string>)
    ensures Operands(a + b) == Operands(a) + Operands(b)
  {
    if a == [] {
      assert a + b == b;
    } else {
      assert (a + b)[0] == a[0];
      assert (a + b)[1..] == a[1..] + b;
      OperandsAppend(a[1..], b);
    }
  }

  predicate NoOperands(ts: seq<string>)
  {
    forall i :: 0 <= i < |ts| ==> !IsOperand(ts[i])
  }

  lemma {:induction false} OperandsNone(ts: seq<string>)
    requires NoOperands(ts)
    ensures Operands(ts) == []
  {
    if ts != [] {
      OperandsNone(ts[1..]);
    }
  }

  /** The operand invariant of the pass: the output holds the operands seen
      so far in order, and the stack holds none. */
  predicate OperandsKept(st: Shunt, done: seq<string>)
  {
    Operands(st.out) == Operands(done) && NoOperands(st.ops)
  }

  lemma StepKeepsOperands(st: Shunt, done: seq<string>, token: string, strict: bool)
    requires OperandsKept(st, done)
    ensures OperandsKept(Step(st, token, strict), done + [token])
  {
    OperandsAppend(done, [token]);
    assert Operands([token]) == if IsOperand(token) then [token] else [] by {
      assert [token][1..] == [];
    }
    var st' := Step(st, token, strict);
    if IsOperand(token) {
      OperandsAppend(st.out, [token]);
    } else if token != "(" {
      var n := if token == ")" then OpenIndex(st.ops) else PopCount(st.ops, Precedence(token), strict);
      assert st'.out == st.out + st.ops[..n];
      OperandsAppend(st.out, st.ops[..n]);
      OperandsNone(st.ops[..n]);
    }
  }

  lemma {:induction false} RunKeepsOperands(st: Shunt, done: seq<string>, rest: seq<string>, strict: bool)
    requires OperandsKept(st, done)
    ensures OperandsKept(Run(st, rest, strict), done + rest)
    decreases |rest|
  {
    if rest == [] {
      assert done + rest == done;
    } else {
      StepKeepsOperands(st, done, rest[0], strict);
      RunKeepsOperands(Step(st, rest[0], strict), done + [rest[0]], rest[1..], strict);
      assert (done + [rest[0]]) + rest[1..] == done + rest;
    }
  }

  /** Both passes copy the operands to the output in the order they come. */
  lemma ConvertedOperands(tokens: seq<string>, strict: bool)
    ensures Operands(Converted(tokens, strict)) == Operands(tokens)
  {
    RunKeepsOperands(Shunt([], []), [], tokens, strict);
    assert [] + tokens == tokens;
    var st := Run(Shunt([], []), tokens, strict);
    OperandsAppend(st.out, st.ops);
    OperandsNone(st.ops);
  }

  lemma {:induction false} OperandsReverse(ts: seq<string>)
    ensures Operands(Reverse(ts)) == Reverse(Operands(ts))
  {
    if ts != [] {
      OperandsReverse(ts[1..]);
      ReverseCons(ts);
      OperandsAppend(Reverse(ts[1..]), [ts[0]]);
      assert [ts[0]][1..] == [];
      assert ts == [ts[0]] + ts[1..];
      OperandsAppend([ts[0]], ts[1..]);
      ReverseAppend([ts[0]], Operands(ts[1..]));
      assert Reverse([ts[0]]) == [ts[0]];
      if !IsOperand(ts[0]) {
        assert Operands([ts[0]]) == [];
      }
    }
  }

  lemma ReverseAppend<T>(a: seq<T>, b: seq<T>)
    ensures Reverse(a + b) == Reverse(b) + Reverse(a)
  {
  }

  lemma ReverseReverse<T>(s: seq<T>)
    ensures Reverse(Reverse(s)) == s
  {
  }

  lemma ParenNotOperand()
    ensures !IsOperand("(") && !IsOperand(")")
  {
    assert "("[0] == '(' && ")"[0] == ')';
  }

  /** A parenthesis is never an operand, so exchanging them leaves the
      operands alone. */
  lemma {:induction false} OperandsSwapped(ts: seq<string>)
    ensures Operands(Swapped(ts)) == Operands(ts)
  {
    if ts != [] {
      assert Swapped(ts)[1..] == Swapped(ts[1..]);
      OperandsSwapped(ts[1..]);
      ParenNotOperand();
    }
  }

  /** The prefix conversion keeps the operands in input order as well. */
  lemma PrefixOperands(tokens: seq<string>)
    ensures Operands(PrefixTokens(tokens)) == Operands(tokens)
  {
    var m := Swapped(Reverse(tokens));
    OperandsReverse(Converted(m, true));
    ConvertedOperands(m, true);
    OperandsSwapped(Reverse(tokens));
    OperandsReverse(tokens);
    ReverseReverse(Operands(tokens));
  }

  // ---------------------------------------------------------------------
  // With balanced parentheses every other token comes out exactly once

  /** How many parentheses are open after the tokens. */
  function Depth(ts: seq<string>): int
  {
    multiset(ts)["("] as int - multiset(ts)[")"] as int
  }

  /** No prefix closes more parentheses than it opens, and all are closed. */
  predicate Balanced(ts: seq<string>)
  {
    && (forall k :: 0 <= k <= |ts| ==> Depth(ts[..k]) >= 0)
    && Depth(ts) == 0
  }

  /** Every token is an operand, a parenthesis, or one of the operators
      _precedence ranks. */
  predicate WellFormed(ts: seq<string>)
  {
    forall i :: 0 <= i < |ts| ==> IsOperand(ts[i]) || ts[i] == "(" || ts[i] == ")" || Precedence(ts[i]) >= 1
  }

  function WithoutParens(m: multiset<string>): multiset<string>
  {
    m["(" := 0][")" := 0]
  }

  function Opens(d: nat): multiset<string>
  {
    multiset{}["(" := d]
  }

  /** The parenthesis invariant of the pass: what is in the output and on
      the stack is every token seen except the parentheses, plus one '('
      per parenthesis still open, and those are all on the stack. */
  predicate ParensKept(st: Shunt, done: seq<string>)
  {
    && Depth(done) >= 0
    && "(" !in st.out
    && multiset(st.out) + multiset(st.ops) == WithoutParens(multiset(done)) + Opens(Depth(done))
  }

  lemma StepKeepsParens(st: Shunt, done: seq<string>, token: string, strict: bool)
    requires ParensKept(st, done)
    requires IsOperand(token) || token == "(" || token == ")" || Precedence(token) >= 1
    requires Depth(done + [token]) >= 0
    ensures ParensKept(Step(st, token, strict), done + [token])
  {
    ParenNotOperand();
    MirrorFacts(token);
    assert multiset(done + [token]) == multiset(done) + multiset{token};
    if IsOperand(token) {
      StepOperand(st, done, token);
    } else if token == "(" {
      StepOpen(st, done);
    } else if token == ")" {
      StepClose(st, done);
    } else {
      StepOperator(st, done, token, strict);
    }
  }

  lemma StepOperand(st: Shunt, done: seq<string>, token: string)
    requires ParensKept(st, done) && IsOperand(token) && token != "(" && token != ")"
    requires multiset(done + [token]) == multiset(done) + multiset{token}
    ensures ParensKept(Shunt(st.out + [token], st.ops), done + [token])
  {
    var m := multiset(done);
    assert Depth(done + [token]) == Depth(done);
    assert WithoutParens(m + multiset{token}) == WithoutParens(m) + multiset{token};
    assert multiset(st.out + [token]) == multiset(st.out) + multiset{token};
    AddOnBothSides(multiset(st.out), multiset(st.ops), WithoutParens(m), Opens(Depth(done)), token);
  }

  lemma AddToStack(a: multiset<string>, b: multiset<string>, w: multiset<string>, o: multiset<string>, t: string)
    requires a + b == w + o
    ensures a + (multiset{t} + b) == w + (o + multiset{t})
  {
    forall x ensures (a + (multiset{t} + b))[x] == (w + (o + multiset{t}))[x] {
      assert (a + b)[x] == (w + o)[x];
    }
  }

  lemma RemoveFromStack(a: multiset<string>, p: multiset<string>, r: multiset<string>, w: multiset<string>, o: multiset<string>, t: string)
    requires a + (p + multiset{t} + r) == w + (o + multiset{t})
    ensures (a + p) + r == w + o
  {
    forall x ensures ((a + p) + r)[x] == (w + o)[x] {
      assert (a + (p + multiset{t} + r))[x] == (w + (o + multiset{t}))[x];
    }
  }

  lemma PushAfterPops(a: multiset<string>, p: multiset<string>, r: multiset<string>, w: multiset<string>, o: multiset<string>, t: string)
    requires a + (p + r) == w + o
    ensures (a + p) + (multiset{t} + r) == (w + multiset{t}) + o
  {
    forall x ensures ((a + p) + (multiset{t} + r))[x] == ((w + multiset{t}) + o)[x] {
      assert (a + (p + r))[x] == (w + o)[x];
    }
  }

  lemma AddOnBothSides(a: multiset<string>, b: multiset<string>, w: multiset<string>, o: multiset<string>, t: string)
    requires a + b == w + o
    ensures (a + multiset{t}) + b == (w + multiset{t}) + o
  {
    forall x ensures ((a + multiset{t}) + b)[x] == ((w + multiset{t}) + o)[x] {
      assert (a + b)[x] == (w + o)[x];
    }
  }

  lemma StepOpen(st: Shunt, done: seq<string>)
    requires ParensKept(st, done)
    requires multiset(done + ["("]) == multiset(done) + multiset{"("}
    ensures ParensKept(Shunt(st.out, ["("] + st.ops), done + ["("])
  {
    MirrorFacts("(");
    var m := multiset(done);
    var d := Depth(done);
    assert Depth(done + ["("]) == d + 1;
    assert WithoutParens(m + multiset{"("}) == WithoutParens(m);
    assert Opens(d + 1) == Opens(d) + multiset{"("};
    assert multiset(["("] + st.ops) == multiset{"("} + multiset(st.ops);
    AddToStack(multiset(st.out), multiset(st.ops), WithoutParens(m), Opens(d), "(");
  }

  lemma StepClose(st: Shunt, done: seq<string>)
    requires ParensKept(st, done)
    requires multiset(done + [")"]) == multiset(done) + multiset{")"}
    requires Depth(done + [")"]) >= 0
    ensures ParensKept(CloseParen(st), done + [")"])
  {
    MirrorFacts(")");
    OpenIndexSpec(st.ops);
    var n := OpenIndex(st.ops);
    var m := multiset(done);
    var d := Depth(done);
    assert Depth(done + [")"]) == d - 1;
    OpenOnStack(st.out, st.ops, WithoutParens(m), d);
    SplitAround(st.ops, n);
    assert WithoutParens(m + multiset{")"}) == WithoutParens(m);
    assert Opens(d) == Opens(d - 1) + multiset{"("};
    var st' := CloseParen(st);
    assert multiset(st'.out) == multiset(st.out) + multiset(st.ops[..n]);
    RemoveFromStack(multiset(st.out), multiset(st.ops[..n]), multiset(st.ops[n + 1..]), WithoutParens(m), Opens(d - 1), "(");
  }

  /** With a parenthesis open and none in the output, there is a '(' on
      the stack. */
  lemma OpenOnStack(out: seq<string>, ops: seq<string>, w: multiset<string>, d: nat)
    requires "(" !in out && w["("] == 0 && d > 0
    requires multiset(out) + multiset(ops) == w + Opens(d)
    ensures "(" in ops
  {
    assert (multiset(out) + multiset(ops))["("] == d;
  }

  lemma SplitAround<T>(s: seq<T>, n: nat)
    requires n < |s|
    ensures multiset(s) == multiset(s[..n]) + multiset{s[n]} + multiset(s[n + 1..])
  {
    assert s == s[..n] + [s[n]] + s[n + 1..];
  }

  lemma StepOperator(st: Shunt, done: seq<string>, token: string, strict: bool)
    requires ParensKept(st, done) && !IsOperand(token) && token != "(" && token != ")"
    requires Precedence(token) >= 1
    requires multiset(done + [token]) == multiset(done) + multiset{token}
    ensures ParensKept(PushOperator(st, token, strict), done + [token])
  {
    var n := PopCount(st.ops, Precedence(token), strict);
    var m := multiset(done);
    PopCountSpec(st.ops, Precedence(token), strict);
    assert st.ops == st.ops[..n] + st.ops[n..];
    assert "(" !in st.ops[..n] by {
      forall i | 0 <= i < n ensures st.ops[i] != "(" {
        assert PopsBefore(st.ops[i], Precedence(token), strict);
      }
    }
    assert Depth(done + [token]) == Depth(done);
    assert WithoutParens(m + multiset{token}) == WithoutParens(m) + multiset{token};
    var st' := PushOperator(st, token, strict);
    assert multiset(st'.out) == multiset(st.out) + multiset(st.ops[..n]);
    assert multiset(st'.ops) == multiset{token} + multiset(st.ops[n..]);
    assert multiset(st.ops) == multiset(st.ops[..n]) + multiset(st.ops[n..]);
    PushAfterPops(multiset(st.out), multiset(st.ops[..n]), multiset(st.ops[n..]), WithoutParens(m), Opens(Depth(done)), token);
  }

  lemma {:induction false} RunKeepsParens(st: Shunt, done: seq<string>, rest: seq<string>, strict: bool)
    requires ParensKept(st, done) && WellFormed(rest)
    requires forall k :: 0 <= k <= |rest| ==> Depth(done + rest[..k]) >= 0
    ensures ParensKept(Run(st, rest, strict), done + rest)
    decreases |rest|
  {
    if rest == [] {
      assert done + rest == done;
    } else {
      assert rest[..1] == [rest[0]];
      StepKeepsParens(st, done, rest[0], strict);
      var done' := done + [rest[0]];
      forall k | 0 <= k <= |rest[1..]| ensures Depth(done' + rest[1..][..k]) >= 0 {
        ShiftPrefix(done, rest, k);
      }
      RunKeepsParens(Step(st, rest[0], strict), done', rest[1..], strict);
      assert done' + rest[1..] == done + rest;
    }
  }

  lemma ShiftPrefix<T>(done: seq<T>, rest: seq<T>, k: nat)
    requires rest != [] && k < |rest|
    ensures (done + [rest[0]]) + rest[1..][..k] == done + rest[..k + 1]
  {
  }

  /** infix_to_postfix on balanced, well-formed tokens: the output holds
      every token except the parentheses, each exactly once. */
  lemma ConvertedPermutation(tokens: seq<string>, strict: bool)
    requires WellFormed(tokens) && Balanced(tokens)
    ensures multiset(Converted(tokens, strict)) == WithoutParens(multiset(tokens))
  {
    forall k | 0 <= k <= |tokens| ensures Depth([] + tokens[..k]) >= 0 {
      assert [] + tokens[..k] == tokens[..k];
    }
    assert Depth([]) == 0;
    RunKeepsParens(Shunt([], []), [], tokens, strict);
    assert [] + tokens == tokens;
  }

  lemma {:induction false} ReverseMultiset<T>(s: seq<T>)
    ensures multiset(Reverse(s)) == multiset(s)
  {
    if s != [] {
      ReverseMultiset(s[1..]);
      ReverseCons(s);
      assert s == [s[0]] + s[1..];
    }
  }

  /** Mirror exchanges the two parentheses and fixes everything else. */
  lemma MirrorFacts(t: string)
    ensures Mirror(t) == "(" <==> t == ")"
    ensures Mirror(t) == ")" <==> t == "("
    ensures t != "(" && t != ")" ==> Mirror(t) == t
  {
    assert "("[0] != ")"[0];
  }

  /** Mirror is its own inverse, so it maps x to t exactly when it maps t to x. */
  lemma MirrorSwaps(x: string, t: string)
    ensures Mirror(x) == t <==> x == Mirror(t)
  {
    assert Mirror(Mirror(x)) == x && Mirror(Mirror(t)) == t by {
      MirrorFacts(x);
      MirrorFacts(t);
    }
  }

  /** Exchanging the parentheses exchanges their counts. */
  lemma {:induction false} SwappedCount(ts: seq<string>, t: string)
    ensures multiset(Swapped(ts))[t] == multiset(ts)[Mirror(t)]
  {
    if ts != [] {
      var x, rest := ts[0], ts[1..];
      SwappedCount(rest, t);
      SwappedCons(ts);
      MirrorSwaps(x, t);
      var here := if x == Mirror(t) then 1 else 0;
      assert multiset(ts)[Mirror(t)] == here + multiset(rest)[Mirror(t)] by {
        assert ts == [x] + rest;
      }
      assert multiset(Swapped(ts))[t] == here + multiset(Swapped(rest))[t] by {
        assert Swapped(ts) == [Mirror(x)] + Swapped(rest);
      }
    }
  }

  lemma SwappedCons(ts: seq<string>)
    requires ts != []
    ensures Swapped(ts) == [Mirror(ts[0])] + Swapped(ts[1..])
  {
  }

  lemma SwappedMultiset(ts: seq<string>)
    ensures WithoutParens(multiset(Swapped(ts))) == WithoutParens(multiset(ts))
    ensures Depth(Swapped(ts)) == - Depth(ts)
  {
    var a := WithoutParens(multiset(Swapped(ts)));
    var b := WithoutParens(multiset(ts));
    forall t ensures a[t] == b[t] {
      SwappedCount(ts, t);
      MirrorFacts(t);
    }
    assert a == b;
    SwappedCount(ts, "(");
    SwappedCount(ts, ")");
    MirrorFacts("(");
    MirrorFacts(")");
  }

  /** A prefix of the mirrored tokens is a mirrored suffix of the tokens,
      with the opposite depth. */
  lemma MirrorPrefix(ts: seq<string>, k: nat)
    requires k <= |ts|
    ensures Depth(Swapped(Reverse(ts))[..k]) == Depth(ts[..|ts| - k]) - Depth(ts)
  {
    var j := |ts| - k;
    ReversePrefix(ts, k);
    SwappedPrefix(Reverse(ts), k);
    SwappedMultiset(Reverse(ts[j..]));
    ReverseMultiset(ts[j..]);
    SplitMultiset(ts, j);
  }

  lemma ReversePrefix<T>(s: seq<T>, k: nat)
    requires k <= |s|
    ensures Reverse(s)[..k] == Reverse(s[|s| - k..])
  {
    var a := Reverse(s)[..k];
    var b := Reverse(s[|s| - k..]);
    assert |a| == k == |b|;
    forall i | 0 <= i < k ensures a[i] == b[i] {
      assert a[i] == s[|s| - 1 - i];
      assert b[i] == s[|s| - k..][k - 1 - i];
    }
  }

  lemma SwappedPrefix(ts: seq<string>, k: nat)
    requires k <= |ts|
    ensures Swapped(ts)[..k] == Swapped(ts[..k])
  {
  }

  lemma SplitMultiset<T>(s: seq<T>, j: nat)
    requires j <= |s|
    ensures multiset(s) == multiset(s[..j]) + multiset(s[j..])
  {
    assert s == s[..j] + s[j..];
  }

  /** Reading balanced tokens backwards with the parentheses exchanged
      gives balanced tokens again. */
  lemma MirrorBalanced(ts: seq<string>)
    requires Balanced(ts)
    ensures Balanced(Swapped(Reverse(ts)))
  {
    var m := Swapped(Reverse(ts));
    forall k | 0 <= k <= |m| ensures Depth(m[..k]) >= 0 {
      MirrorPrefix(ts, k);
    }
    SwappedMultiset(Reverse(ts));
    ReverseMultiset(ts);
  }

  lemma MirrorWellFormed(ts: seq<string>)
    requires WellFormed(ts)
    ensures WellFormed(Swapped(Reverse(ts)))
  {
  }

  /** infix_to_prefix on balanced, well-formed tokens: the output holds
      every token except the parentheses, each exactly once. */
  lemma PrefixPermutation(tokens: seq<string>)
    requires WellFormed(tokens) && Balanced(tokens)
    ensures multiset(PrefixTokens(tokens)) == WithoutParens(multiset(tokens))
  {
    var m := Swapped(Reverse(tokens));
    MirrorBalanced(tokens);
    MirrorWellFormed(tokens);
    ConvertedPermutation(m, true);
    ReverseMultiset(Converted(m, true));
    SwappedMultiset(Reverse(tokens));
    ReverseMultiset(tokens);
  }
}
