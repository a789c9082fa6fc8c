/**
 Which names a local carries, told from the binds in the order of the source: what each expression passes on, which
 name each statement binds, and the chains of renames (governance-verifier.ts).
 */
module AliasBinds {
  import opened AliasCarry
  import opened CharacterClasses
  import opened JsText
  import opened Options
  import opened TextForms

  // ----- what an expression passes on -----

  /** A wrapper around one expression that passes on what is inside. */
  predicate Wraps(e: Node) {
    |e.children| == 1 && e.kind != CallExpr && !(e.kind == MemberExpr && e.value.Some?)
  }

  /** A read of field `f`, wrapped or not. */
  predicate Reads(e: Node, f: string) {
    (e.kind == MemberExpr && e.value == Some(f)) || (Wraps(e) && Reads(e.children[0], f))
  }

  /** The bare name `x`, wrapped or not. */
  predicate Renames(e: Node, x: string) {
    (e.kind == Identifier && e.value == Some(x) && e.children == []) || (Wraps(e) && Renames(e.children[0], x))
  }

  lemma {:induction false} SourceIff(e: Node, name: string)
    ensures SourceOf(e) == Field(name) <==> Reads(e, name)
    ensures SourceOf(e) == Local(name) <==> Renames(e, name)
    decreases e
  {
    if Wraps(e) {
      SourceIff(e.children[0], name);
    }
  }

  // ----- the name a statement binds -----

  /** The text without the blanks around it. */
  ghost predicate Stripped(text: string, core: string) {
    Bare(core) && exists before, behind :: Blank(before) && Blank(behind) && text == before + core + behind
  }

  /** The text in front of the first colon, or all of it. */
  ghost predicate InFront(text: string, front: string) {
    ':' !in front && exists tail :: (tail == "" || tail[0] == ':') && text == front + tail
  }

  /** `word`, blanks, and the rest. */
  ghost predicate Begins(text: string, word: string, rest: string) {
    NoSpaceFirst(rest) && exists gap :: gap != "" && Blank(gap) && text == word + gap + rest
  }

  /** Behind a leading `unsafe` or `safe` with blanks, or all of it if there is neither. */
  ghost predicate Unmarked(text: string, bare: string) {
    Begins(text, "unsafe", bare) || Begins(text, "safe", bare) || (bare == text && NoMark(text))
  }

  /** The declaration's text is a word or none, a name, and a colon with a type or none, blanks anywhere between. */
  ghost predicate DeclaredName(raw: string, name: string) {
    exists text, bare, front ::
      Stripped(raw, text) && Unmarked(text, bare) && InFront(bare, front) && Stripped(front, name)
  }

  ghost predicate NoMark(text: string) {
    forall rest :: !Begins(text, "unsafe", rest) && !Begins(text, "safe", rest)
  }

  lemma {:induction false} BeforeColonIs(text: string)
    ensures InFront(text, BeforeColon(text))
  {
    if text == "" || text[0] == ':' {
      assert text == "" + text;
    } else {
      BeforeColonIs(text[1..]);
      var tail :| (tail == "" || tail[0] == ':') && text[1..] == BeforeColon(text[1..]) + tail;
      assert text == BeforeColon(text) + tail;
    }
  }

  lemma {:induction false} InFrontIs(text: string, front: string)
    requires InFront(text, front)
    ensures BeforeColon(text) == front
    decreases |front|
  {
    var tail :| (tail == "" || tail[0] == ':') && text == front + tail;
    if front == "" {
      assert text == tail;
    } else {
      assert front[0] in front && text[0] == front[0];
      assert text[1..] == front[1..] + tail;
      InFrontIs(text[1..], front[1..]);
    }
  }

  lemma StrippedIs(text: string, core: string)
    ensures Stripped(text, core) <==> Trim(text) == core
  {
    TrimIff(text, core);
  }

  lemma BeginsIs(text: string, word: string, rest: string)
    ensures Begins(text, word, rest) <==> AfterWord(word, text) == Some(rest)
  {
    AfterWordStarts(word, text);
    if NoSpaceFirst(rest) {
      AfterWordIff(word, text, rest);
    }
  }

  /** The text behind the word, if it begins with one. */
  function BareOf(text: string): string {
    if AfterWord("unsafe", text).Some? then AfterWord("unsafe", text).value
    else if AfterWord("safe", text).Some? then AfterWord("safe", text).value
    else text
  }

  lemma OneMark(text: string)
    ensures AfterWord("unsafe", text).None? || AfterWord("safe", text).None?
  {
  }

  lemma BareIff(text: string, bare: string)
    ensures BareOf(text) == bare <==> Unmarked(text, bare)
  {
    OneMark(text);
    BeginsIs(text, "unsafe", bare);
    BeginsIs(text, "safe", bare);
    forall rest ensures Begins(text, "unsafe", rest) <==> AfterWord("unsafe", text) == Some(rest) {
      BeginsIs(text, "unsafe", rest);
    }
    forall rest ensures Begins(text, "safe", rest) <==> AfterWord("safe", text) == Some(rest) {
      BeginsIs(text, "safe", rest);
    }
  }

  lemma NameSteps(raw: string, text: string, bare: string, front: string, name: string)
    requires Trim(raw) == text && BareOf(text) == bare && BeforeColon(bare) == front && Trim(front) == name
    ensures BindingNameOf(raw) == name
  {
  }

  lemma NameRead(raw: string, text: string, bare: string, front: string, name: string)
    requires Stripped(raw, text) && Unmarked(text, bare) && InFront(bare, front) && Stripped(front, name)
    ensures Trim(raw) == text && BareOf(text) == bare && BeforeColon(bare) == front && Trim(front) == name
  {
    StrippedIs(raw, text);
    BareIff(text, bare);
    InFrontIs(bare, front);
    StrippedIs(front, name);
  }

  lemma NameFound(raw: string, text: string, bare: string, front: string)
    requires text == Trim(raw) && bare == BareOf(text) && front == BeforeColon(bare)
    ensures Stripped(raw, text) && Unmarked(text, bare) && InFront(bare, front) && Stripped(front, Trim(front))
  {
    StrippedIs(raw, text);
    BareIff(text, bare);
    BeforeColonIs(bare);
    StrippedIs(front, Trim(front));
  }

  lemma NameIff(raw: string, name: string)
    ensures BindingNameOf(raw) == name <==> DeclaredName(raw, name)
  {
    var text := Trim(raw);
    var bare := BareOf(text);
    var front := BeforeColon(bare);
    NameSteps(raw, text, bare, front, Trim(front));
    NameFound(raw, text, bare, front);
    if DeclaredName(raw, name) {
      var t, b, r :| Stripped(raw, t) && Unmarked(t, b) && InFront(b, r) && Stripped(r, name);
      NameRead(raw, t, b, r, name);
    }
  }

  /** The statement gives `x` a value: the name of a declaration or the target of an assignment. */
  ghost predicate Binds(n: Node, x: string) {
    && n.children != [] && x != ""
    && match n.kind
       case LetDecl | MutDecl | ReadonlyDecl => DeclaredName(if n.value.Some? then n.value.value else "", x)
       case AssignStmt => n.value == Some(x)
       case _ => false
  }

  lemma BindsIff(n: Node, x: string)
    ensures Binds(n, x) <==> BoundName(n) == Some(x)
  {
    NameIff(if n.value.Some? then n.value.value else "", x);
  }

  // ----- chains of binds -----

  /** The nodes of a tree in the order of the source, each before what is inside it. */
  function Preorder(n: Node): seq<Node>
    decreases n, 1
  {
    [n] + PreorderAll(n.children)
  }

  function PreorderAll(ns: seq<Node>): seq<Node>
    decreases ns
  {
    if ns == [] then [] else Preorder(ns[0]) + PreorderAll(ns[1..])
  }

  /** Some node before place `i` binds `x`. */
  ghost predicate Bound(nodes: seq<Node>, i: nat, x: string)
    requires i <= |nodes|
  {
    exists j: nat :: j < i && Binds(nodes[j], x)
  }

  /**
   The expression that node `i` binds passes on the name `f`: it reads the field `f`, or it renames a local that an
   earlier bind makes carry `f`, or it is the bare name `f`, not bound before.
   */
  ghost predicate Carries(nodes: seq<Node>, i: nat, f: string)
    requires i < |nodes|
    decreases i, 1
  {
    && nodes[i].children != []
    && var init := nodes[i].children[0];
       || Reads(init, f)
       || (Renames(init, f) && !Bound(nodes, i, f))
       || exists y :: Renames(init, y) && Holds(nodes, i, y, f)
  }

  /** Some node before place `i` binds `x` to something that passes on `f`. */
  ghost predicate Holds(nodes: seq<Node>, i: nat, x: string, f: string)
    requires i <= |nodes|
    decreases i, 0
  {
    exists j: nat :: j < i && Binds(nodes[j], x) && Carries(nodes, j, f)
  }

  function NoteAll(nodes: seq<Node>, aliases: Aliases): Aliases {
    if nodes == [] then aliases else NoteAll(nodes[1..], NotedAt(nodes[0], aliases))
  }

  lemma {:induction false} NoteConcat(a: seq<Node>, b: seq<Node>, aliases: Aliases)
    ensures NoteAll(a + b, aliases) == NoteAll(b, NoteAll(a, aliases))
    decreases |a|
  {
    if a == [] {
      assert a + b == b;
    } else {
      NoteConcat(a[1..], b, NotedAt(a[0], aliases));
      assert (a + b)[1..] == a[1..] + b && (a + b)[0] == a[0];
    }
  }

  lemma {:induction false} BuildIsNoteAll(n: Node, aliases: Aliases)
    ensures Build(n, aliases) == NoteAll(Preorder(n), aliases)
    decreases n, 1
  {
    BuildAllIsNoteAll(n.children, NotedAt(n, aliases));
    assert Preorder(n)[0] == n && Preorder(n)[1..] == PreorderAll(n.children);
  }

  lemma {:induction false} BuildAllIsNoteAll(ns: seq<Node>, aliases: Aliases)
    ensures BuildAll(ns, aliases) == NoteAll(PreorderAll(ns), aliases)
    decreases ns
  {
    if ns != [] {
      BuildIsNoteAll(ns[0], aliases);
      BuildAllIsNoteAll(ns[1..], Build(ns[0], aliases));
      NoteConcat(Preorder(ns[0]), PreorderAll(ns[1..]), aliases);
    }
  }

  /** The names carried once the nodes before place `i` have been noted. */
  function After(nodes: seq<Node>, i: nat): Aliases
    requires i <= |nodes|
  {
    NoteAll(nodes[..i], map[])
  }

  lemma AfterStep(nodes: seq<Node>, i: nat)
    requires i < |nodes|
    ensures After(nodes, i + 1) == NotedAt(nodes[i], After(nodes, i))
  {
    assert nodes[..i + 1] == nodes[..i] + [nodes[i]];
    NoteConcat(nodes[..i], [nodes[i]], map[]);
    assert [nodes[i]][1..] == [];
  }

  /** `After` has `x` if it is bound, and with it the names it holds. */
  ghost predicate Agrees(nodes: seq<Node>, i: nat, x: string, f: string)
    requires i <= |nodes|
  {
    && (x in After(nodes, i) <==> Bound(nodes, i, x))
    && (x in After(nodes, i) ==> (f in After(nodes, i)[x] <==> Holds(nodes, i, x, f)))
  }

  /** What node `i` passes on by `Carry` is what it carries. */
  lemma CarryIs(nodes: seq<Node>, i: nat, f: string)
    requires i < |nodes| && nodes[i].children != [] && forall y :: Agrees(nodes, i, y, f)
    ensures f in Carry(SourceOf(nodes[i].children[0]), After(nodes, i)) <==> Carries(nodes, i, f)
  {
    var init := nodes[i].children[0];
    var source := SourceOf(init);
    forall y ensures (source == Field(y) <==> Reads(init, y)) && (source == Local(y) <==> Renames(init, y)) {
      SourceIff(init, y);
    }
    match source {
      case Field(g) =>
      case Local(x) =>
        assert Agrees(nodes, i, x, f);
        if !Bound(nodes, i, x) {
          assert !Holds(nodes, i, x, f);
        }
      case Opaque =>
    }
  }

  lemma BoundStep(nodes: seq<Node>, i: nat, x: string, f: string)
    requires i < |nodes|
    ensures Bound(nodes, i + 1, x) <==> Bound(nodes, i, x) || Binds(nodes[i], x)
    ensures Holds(nodes, i + 1, x, f) <==> Holds(nodes, i, x, f) || (Binds(nodes[i], x) && Carries(nodes, i, f))
  {
  }

  lemma NotedIs(n: Node, aliases: Aliases, x: string)
    ensures var after := NotedAt(n, aliases);
            && (x in after <==> x in aliases || Binds(n, x))
            && (x in aliases && !Binds(n, x) ==> after[x] == aliases[x])
            && (Binds(n, x) ==>
                  after[x] == (if x in aliases then aliases[x] else {}) + Carry(SourceOf(n.children[0]), aliases))
  {
    BindsIff(n, x);
  }

  lemma AgreesStep(nodes: seq<Node>, k: nat, x: string, f: string)
    requires k < |nodes| && Agrees(nodes, k, x, f)
    requires Binds(nodes[k], x) ==>
               (f in Carry(SourceOf(nodes[k].children[0]), After(nodes, k)) <==> Carries(nodes, k, f))
    ensures Agrees(nodes, k + 1, x, f)
  {
    AfterStep(nodes, k);
    NotedIs(nodes[k], After(nodes, k), x);
    BoundStep(nodes, k, x, f);
    if x !in After(nodes, k) {
      assert !Holds(nodes, k, x, f);
    }
  }

  /** The pass leaves each local with the names that the chains of binds lead to. */
  lemma {:induction false} AfterAgrees(nodes: seq<Node>, i: nat, x: string, f: string)
    requires i <= |nodes|
    ensures Agrees(nodes, i, x, f)
    decreases i
  {
    if i == 0 {
      assert nodes[..0] == [];
    } else {
      var k := i - 1;
      forall y ensures Agrees(nodes, k, y, f) {
        AfterAgrees(nodes, k, y, f);
      }
      if Binds(nodes[k], x) {
        CarryIs(nodes, k, f);
      }
      AgreesStep(nodes, k, x, f);
    }
  }

  /** A local ends up carrying exactly the names that a chain of binds leads to. */
  lemma AliasesAreChains(body: Node, x: string, f: string)
    ensures var nodes := Preorder(body);
            && (x in BodyAliases(body) <==> Bound(nodes, |nodes|, x))
            && (x in BodyAliases(body) ==> (f in BodyAliases(body)[x] <==> Holds(nodes, |nodes|, x, f)))
  {
    var nodes := Preorder(body);
    BuildIsNoteAll(body, map[]);
    assert nodes[..|nodes|] == nodes;
    AfterAgrees(nodes, |nodes|, x, f);
  }
}
