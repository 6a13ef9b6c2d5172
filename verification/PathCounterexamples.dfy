/**
 Inputs on which the path resolver of the runtime write ratchet is wrong
 (scripts/runtime_write_resolve.py), one for each guard of its soundness.
 */
module PathCounterexamples {
  import opened Options
  import opened Seqs
  import opened PathResolver

  const SRC_FILE: seq<FileName> := ["src", "a.py"]

  /** `Path("src") / "~x"` is `src/~x`, and is called clean. */
  lemma TildeSlipsThrough(w: World)
    ensures var e := Div(Join(Literal("src"), []), Literal("~x"));
            Eval(e, SRC_FILE, w) == Rel(["src", "~x"]) && Classify(Resolve(e, SRC_FILE, map[], 0), {"src"}) == Clean
  {
    hide Parts, LiteralValue, LiteralPath;
    PartsOfWord("~x");
    Anchors(w);
    WordRead("src", w);
    assert ["src"] + ["~x"] == ["src", "~x"];
    SolidSelf(["src", "~x"]);
  }

  lemma Anchors(w: World)
    ensures LiteralPath("~x", w) == Rel(Parts("~x")) && LiteralValue("~x") == LiteralValue("/src") == Outside
  {}

  /** `C:src`, read where that drive is, and `/src`, if the checkout is at the root, are `src`; both are called clean. */
  lemma AnchoredSlipsThrough(w: World)
    requires w.anchored("C:src") == Some(["src"]) && w.anchored("/src") == Some(["src"])
    ensures Eval(Literal("C:src"), SRC_FILE, w) == Eval(Literal("/src"), SRC_FILE, w) == Abs(["src"])
    ensures Classify(Resolve(Literal("C:src"), SRC_FILE, map[], 0), {"src"}) == Clean
    ensures Classify(Resolve(Literal("/src"), SRC_FILE, map[], 0), {"src"}) == Clean
  {
    hide Parts, LiteralValue;
    PartsOfWord("C:src");
    assert !IsAbsolute("C:src");
    ValueOf("C:src", "C:src");
    Anchors(w);
  }

  /**
   `os.path.join(os.path.dirname("src/"), "x")` is `src/x`, and is called clean; with `x` and `src` exchanged it is
   `x/src`, and is reported.
   */
  lemma DirnameMisleads(w: World)
    ensures var e := TextJoin(Dirname(Literal("src/")), [Literal("x")]);
            Eval(e, SRC_FILE, w) == Rel(["src", "x"]) && Classify(Resolve(e, SRC_FILE, map[], 0), {"src"}) == Clean
    ensures var e := TextJoin(Dirname(Literal("x/")), [Literal("src")]);
            Eval(e, SRC_FILE, w) == Rel(["x", "src"]) && Classify(Resolve(e, SRC_FILE, map[], 0), {"src"}) == CodeFolder
  {
    hide LiteralPath, LiteralValue, DirnamePath;
    assert "src" + "/" == "src/" && "x" + "/" == "x/";
    WordRead("src", w);
    WordRead("x", w);
    JoinOne(Dirname(Literal("src/")), Literal("x"), w);
    JoinOne(Dirname(Literal("x/")), Literal("src"), w);
    assert ["src"] + ["x"] == ["src", "x"] && ["x"] + ["src"] == ["x", "src"];
    assert Known(["src"]).parts[..0] == [] && Known(["x"]).parts[..0] == [];
  }

  lemma JoinOne(first: Expr, second: Expr, w: World)
    ensures Eval(TextJoin(first, [second]), SRC_FILE, w) == JoinPath(Eval(first, SRC_FILE, w), Eval(second, SRC_FILE, w))
    ensures Resolve(TextJoin(first, [second]), SRC_FILE, map[], 0) ==
            JoinValue(Resolve(first, SRC_FILE, map[], 1), Resolve(second, SRC_FILE, map[], 1))
  {
    hide JoinPath, JoinValue;
    var l, r := Eval(first, SRC_FILE, w), Eval(second, SRC_FILE, w);
    assert [second][0] == second && [second][1..] == [];
    assert EvalAll(JoinPath(l, r), [], SRC_FILE, w) == JoinPath(l, r);
    assert EvalAll(l, [second], SRC_FILE, w) == JoinPath(l, r);
    var lv, rv := Resolve(first, SRC_FILE, map[], 1), Resolve(second, SRC_FILE, map[], 1);
    assert ResolveAll(JoinValue(lv, rv), [], SRC_FILE, map[], 1) == JoinValue(lv, rv);
    assert ResolveAll(lv, [second], SRC_FILE, map[], 1) == JoinValue(lv, rv);
  }

  /** `Path("data") / Path(__file__).parent / "x"` in `src/a.py` is `src/x`, and is called clean. */
  lemma AbsoluteRightSlipsThrough(w: World)
    ensures var e := Div(Div(Join(Literal("data"), []), Parents(Join(ThisFile, []), 1)), Literal("x"));
            Eval(e, SRC_FILE, w) == Abs(["src", "x"]) && Classify(Resolve(e, SRC_FILE, map[], 0), {"src"}) == Clean
  {
    hide LiteralPath, LiteralValue;
    WordRead("data", w);
    WordRead("x", w);
    ThisFolder(w, 2);
    var dir := Parents(Join(ThisFile, []), 1);
    var data := Div(Join(Literal("data"), []), dir);
    SolidSelf(["src"]);
    assert Eval(data, SRC_FILE, w) == Abs(["src"]);
    assert Resolve(data, SRC_FILE, map[], 1) == Known(["data"] + ["src"]);
    assert ["src"] + ["x"] == ["src", "x"];
    SolidSelf(["src", "x"]);
  }

  /** `Path(tempfile.gettempdir()) / Path(__file__).parent` in `src/a.py` is `src`, and is called clean. */
  lemma OutsideLeftSlipsThrough(w: World)
    ensures var e := Div(Join(SafeCall, []), Parents(Join(ThisFile, []), 1));
            Eval(e, SRC_FILE, w) == Abs(["src"]) && Classify(Resolve(e, SRC_FILE, map[], 0), {"src"}) == Clean
  {
    ThisFolder(w, 1);
    SolidSelf(["src"]);
  }

  /** `Path("data") / target` is `src` when `target` holds that absolute path, and is called clean. */
  lemma OpaqueRightSlipsThrough(w: World)
    requires w.others(0) == Abs(["src"])
    ensures var e := Div(Join(Literal("data"), []), Other(0));
            Eval(e, SRC_FILE, w) == Abs(["src"]) && Classify(Resolve(e, SRC_FILE, map[], 0), {"src"}) == Clean
  {
    hide LiteralPath, LiteralValue;
    WordRead("data", w);
    SolidSelf(["src"]);
  }

  /** `Path("x").parent.parent / "src"` stays at the root and is `src`, and is called clean. */
  lemma RelativeRootSlipsThrough(w: World)
    ensures var e := Div(Parents(Parents(Join(Literal("x"), []), 1), 1), Literal("src"));
            Eval(e, SRC_FILE, w) == Rel(["src"]) && Classify(Resolve(e, SRC_FILE, map[], 0), {"src"}) == Clean
  {
    hide LiteralPath, LiteralValue, ParentsPath, ParentsValue;
    var outer := Parents(Parents(Join(Literal("x"), []), 1), 1);
    TwoParents(w);
    WordRead("src", w);
    NoneLeft(["src"]);
    assert Eval(Div(outer, Literal("src")), SRC_FILE, w) == Tidy(JoinPath(Rel([]), Rel(["src"])));
    assert Resolve(Div(outer, Literal("src")), SRC_FILE, map[], 0) == JoinValue(Outside, Known(["src"]));
  }

  lemma TwoParents(w: World)
    ensures var outer := Parents(Parents(Join(Literal("x"), []), 1), 1);
            Eval(outer, SRC_FILE, w) == Rel([]) && Resolve(outer, SRC_FILE, map[], 1) == Outside
  {
    hide LiteralPath, LiteralValue, ParentsPath, ParentsValue;
    var path := Join(Literal("x"), []);
    var inner := Parents(path, 1);
    WordRead("x", w);
    RootParents();
    assert Eval(path, SRC_FILE, w) == Rel(["x"]) && Resolve(path, SRC_FILE, map[], 3) == Known(["x"]);
    assert Eval(inner, SRC_FILE, w) == Rel([]) && Resolve(inner, SRC_FILE, map[], 2) == Known([]);
  }

  lemma RootParents()
    ensures ParentsPath(Rel(["x"]), 1) == Rel([]) && ParentsPath(Rel([]), 1) == Rel([]) && Solid([]) == []
    ensures ParentsValue(Known(["x"]), 1) == Known([]) && ParentsValue(Known([]), 1) == Outside
  {
    SolidOne("x");
    assert Known(["x"]).parts[..0] == [];
    assert ParentPath(Rel(["x"])) == ParentPath(Rel([])) == Rel([]);
    hide ParentPath, ParentValue;
    assert ParentsPath(ParentPath(Rel(["x"])), 0) == ParentPath(Rel(["x"]));
    assert ParentsPath(ParentPath(Rel([])), 0) == ParentPath(Rel([]));
  }

  lemma ThisFolder(w: World, depth: nat)
    requires depth < 5
    ensures Eval(Parents(Join(ThisFile, []), 1), SRC_FILE, w) == Abs(["src"])
    ensures Resolve(Parents(Join(ThisFile, []), 1), SRC_FILE, map[], depth) == Known(["src"])
  {
    assert Resolve(Join(ThisFile, []), SRC_FILE, map[], depth + 1) == Known(SRC_FILE);
    SolidSelf(SRC_FILE);
    assert SRC_FILE[..1] == ["src"];
    assert ParentsPath(Abs(SRC_FILE), 1) == ParentsPath(Abs(["src"]), 0);
    assert ParentsValue(Known(SRC_FILE), 1) == ParentsValue(Known(["src"]), 0);
  }

  /** A single word of letters. */
  predicate Word(text: string) {
    text != "" && forall i :: 0 <= i < |text| ==> 'a' <= text[i] <= 'z'
  }

  lemma PartsOfWord(text: string)
    requires forall c :: c in text ==> !IsSlash(c)
    ensures Parts(text) == [text] && Parts(text + "/") == [text, ""]
  {
    PlainFront(text, "");
    PlainFront(text, "/");
    NoneLeft(text);
    assert Parts("") == [""] && "/"[1..] == "";
  }

  lemma ValueOf(text: string, part: Part)
    requires part != ".." && !IsAbsolute(text) && (Parts(text) == [part] || Parts(text) == [part, ""])
    ensures LiteralValue(text) == Known([part])
  {
    hide Parts, IsAbsolute, Descend, Solid;
    SolidOne(part);
    SolidInit([part], "");
    assert [part] + [""] == [part, ""];
    NoneLeft([part]);
    DescendPlain([], Parts(text));
  }

  /** How a word and a word with a slash are read. */
  lemma WordRead(text: Part, w: World)
    requires Word(text)
    ensures Solid([text]) == [text]
    ensures LiteralPath(text, w) == Rel([text]) && LiteralValue(text) == Known([text])
    ensures LiteralPath(text + "/", w) == Rel([text, ""]) && LiteralValue(text + "/") == Known([text])
    ensures DirnamePath(Rel([text, ""])) == Rel([text])
  {
    hide Parts, LiteralValue, Solid;
    PartsOfWord(text);
    SolidOne(text);
    assert (text + "/")[0] == text[0] && (|text| > 1 ==> (text + "/")[1] == text[1]);
    ValueOf(text, text);
    ValueOf(text + "/", text);
    assert [text, ""][..1] == [text];
  }

  /** Text without slashes goes to the first part. */
  lemma {:induction false} PlainFront(word: string, rest: string)
    requires forall c :: c in word ==> !IsSlash(c)
    ensures Parts(word + rest) == [word + Parts(rest)[0]] + Parts(rest)[1..]
  {
    if word == "" {
      NoneLeft(rest);
      NoneLeft(Parts(rest)[0]);
      HeadTail(Parts(rest));
    } else {
      ConcatLeft(word, rest, 1);
      PlainFront(word[1..], rest);
      HeadTail(word);
      Assoc([word[0]], word[1..], Parts(rest)[0]);
    }
  }
}
