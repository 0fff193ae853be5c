/** prettyPrint of jsonpp.js: a token-driven printer that keeps a count per open container and one flag. */
module JsonPretty {
  import opened JsonValue
  import opened JsonText
  import opened JsonStyles
  import opened JsonGrammar
  import opened JsonEvents
  import opened JsonAssemblyText
  import opened Sequences

  /** `Thrown` stands for the TypeError raised when a token needs a frame and none is on the stack. */
  datatype Printed = Output(text: bytes) | Thrown

  /** `frame.count` of a part; a part that holds a further one has already counted it. */
  function CountOf(p: Part, held: bool): nat {
    if p.isObject then |p.keys| else |p.items| + (if held then 1 else 0)
  }

  ghost predicate CountsMatch(stack: seq<nat>, open: seq<Part>) {
    |stack| == |open| && forall k :: 0 <= k < |stack| ==> stack[k] == CountOf(open[k], k < |open| - 1)
  }

  ghost predicate CountsHeld(stack: seq<nat>, open: seq<Part>) {
    |stack| == |open| && forall k :: 0 <= k < |stack| ==> stack[k] == CountOf(open[k], true)
  }

  lemma AddCounts(stack: seq<nat>, s: Assembly, v: Json)
    requires AssemblyOk(s) && Ready(s) && CountsHeld(stack, s.open)
    ensures CountsMatch(stack, Add(s, v).open)
    ensures Add(s, v).open != [] ==> !Awaiting(Top(Add(s, v)))
  {
  }

  class Printer {
    const indent: nat
    var out: bytes
    var stack: seq<nat>
    var afterKey: bool

    constructor (indent: nat)
      ensures this.indent == indent && out == [] && stack == [] && !afterKey
    {
      this.indent := indent;
      out, stack, afterKey := [], [], false;
    }

    /** The printer has emitted the text of the assembly `s` and its stack and flag correspond to it. */
    ghost predicate At(s: Assembly)
      reads this
    {
      && AssemblyOk(s)
      && CountsMatch(stack, s.open)
      && (afterKey <==> s.open != [] && Awaiting(Top(s)))
      && out == Written(Pretty, s, indent)
    }

    lemma AtStart()
      requires out == [] && stack == [] && !afterKey
      ensures At(EMPTY)
    {
    }

    method Pad(depth: nat)
      modifies `out
      ensures out == old(out) + Break(indent, depth)
    {
      if indent != 0 {
        out := out + ([NEWLINE] + Spaces(indent * depth));
      }
    }

    method BeforeValue(ghost s: Assembly)
      modifies `out, `stack, `afterKey
      ensures old(At(s)) && Ready(s) ==>
                out == old(out) + ValueLead(Pretty, s, indent) && CountsHeld(stack, s.open) && !afterKey
    {
      hide Written, Break, AssemblyOk;
      if afterKey {
        afterKey := false;
        return;
      }
      if stack != [] {
        var count := stack[|stack| - 1];
        stack := stack[..|stack| - 1] + [count + 1];
        if count > 0 {
          out := out + [COMMA];
        }
        Pad(|stack|);
      }
    }

    /** OBJECT_END and ARRAY_END */
    method Close(tok: Event, ghost s: Assembly) returns (thrown: bool)
      requires tok.ObjectEnd? || tok.ArrayEnd?
      modifies `out, `stack
      ensures thrown <==> old(stack) == []
      ensures old(At(s)) && Accepts(s, tok) ==> !thrown && At(Step(s, tok))
    {
      hide Written, Break;
      if stack == [] {
        return true;
      }
      var count := stack[|stack| - 1];
      stack := stack[..|stack| - 1];
      if count > 0 {
        Pad(|stack|);
      }
      out := out + [if tok.ObjectEnd? then 0x7D else 0x5D];
      if old(At(s)) && Accepts(s, tok) {
        StepAppends(Pretty, s, tok, indent);
      }
      return false;
    }

    /** KEY */
    method WriteKey(name: bytes, ghost s: Assembly) returns (thrown: bool)
      modifies `out, `stack, `afterKey
      ensures thrown <==> old(stack) == []
      ensures old(At(s)) && Accepts(s, Key(name)) ==> !thrown && At(Step(s, Key(name)))
    {
      hide Written, Break, Quoted;
      if stack == [] {
        return true;
      }
      var count := stack[|stack| - 1];
      stack := stack[..|stack| - 1] + [count + 1];
      if count > 0 {
        out := out + [COMMA];
      }
      Pad(|stack|);
      out := out + (Quoted(name) + [COLON] + (if indent == 0 then [] else [SPACE]));
      afterKey := true;
      if old(At(s)) && Accepts(s, Key(name)) {
        StepAppends(Pretty, s, Key(name), indent);
      }
      return false;
    }

    /** OBJECT, ARRAY and the scalar tokens */
    method Begin(tok: Event, ghost s: Assembly)
      requires tok.ObjectStart? || tok.ArrayStart? || tok.Value?
      modifies `out, `stack, `afterKey
      ensures old(At(s)) && Accepts(s, tok) ==> At(Step(s, tok))
    {
      hide Written, Break, ValueLead;
      BeforeValue(s);
      if tok.Value? {
        out := out + Scalar(tok.v);
      } else {
        out := out + [if tok.ObjectStart? then 0x7B else 0x5B];
        stack := stack + [0];
      }
      if old(At(s)) && Accepts(s, tok) {
        StepAppends(Pretty, s, tok, indent);
        if tok.Value? {
          AddCounts(stack, s, tok.v);
        } else {
          assert Emit(Pretty, s, tok, indent)
              == ValueLead(Pretty, s, indent) + [if tok.ObjectStart? then 0x7B else 0x5B];
        }
      }
    }

    /** One iteration of the token loop. */
    method Token(tok: Event, ghost s: Assembly) returns (thrown: bool)
      modifies `out, `stack, `afterKey
      ensures thrown <==> old(stack) == [] && (tok.ObjectEnd? || tok.ArrayEnd? || tok.Key?)
      ensures old(At(s)) && Accepts(s, tok) ==> !thrown && At(Step(s, tok))
    {
      hide Written, Step, Accepts, AssemblyOk, CountsMatch;
      match tok
      case ObjectEnd => thrown := Close(tok, s);
      case ArrayEnd => thrown := Close(tok, s);
      case Key(name) => thrown := WriteKey(name, s);
      case _ =>
        Begin(tok, s);
        thrown := false;
    }
  }

  /** The token loop. On any acceptable stream it emits the text of what the stream stands for. */
  method PrettyPrint(tokens: seq<Event>, indent: nat) returns (r: Printed)
    ensures AcceptsAll(EMPTY, tokens) ==> AssemblyOk(Assemble(EMPTY, tokens))
    ensures AcceptsAll(EMPTY, tokens) ==> r == Output(Written(Pretty, Assemble(EMPTY, tokens), indent))
  {
    hide Written, Step, AssemblyOk, CountsMatch, CountsHeld;
    AssembleOk(EMPTY, tokens) by { StartsOk(); }
    var p := new Printer(indent);
    ghost var s := EMPTY;
    p.AtStart();
    assert tokens[0..] == tokens;
    for i := 0 to |tokens|
      invariant fresh(p) && p.indent == indent
      invariant AcceptsAll(EMPTY, tokens) ==>
                  p.At(s) && AcceptsAll(s, tokens[i..]) && Assemble(s, tokens[i..]) == Assemble(EMPTY, tokens)
    {
      assert tokens[i..][1..] == tokens[i + 1..];
      var thrown := p.Token(tokens[i], s);
      if thrown {
        return Thrown;
      }
      if AcceptsAll(EMPTY, tokens) {
        s := Step(s, tokens[i]);
      }
    }
    return Output(p.out);
  }

  lemma StartsOk()
    ensures AssemblyOk(EMPTY)
  {
  }

  /** Pretty-printing the tokens of a tree gives the tree's text in its own layout: a JSON text that stands for the
      tree, and the very bytes of js_json_write exactly if nothing is indented or no container is empty. */
  lemma PrettyTree(v: Json, indent: nat)
    requires Shaped(v) && NumbersOk(v)
    ensures AcceptsAll(EMPTY, Events(v)) && Assemble(EMPTY, Events(v)) == Assembly([v], [])
    ensures var text := Written(Pretty, Assembly([v], []), indent);
            && (text == Text(Batch, v, indent, 0) <==> indent == 0 || !HasEmpty(v))
            && Stripped(Outside, text) == Text(Batch, v, 0, 0)
            && Parse(text) == Some(Plain(v))
  {
    hide Text, Entries, Lex, ParseValue, Plain, HasEmpty;
    AssembleValue(EMPTY, v);
    assert EMPTY.roots + [v] == [v];
    SingleRoot(Pretty, v, indent);
    PrettyEqualsBatch(v, indent, 0);
    TextStrips(Pretty, v, indent, 0);
    RoundTrip(Pretty, v, indent);
  }
}
