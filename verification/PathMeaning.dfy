/** What `get_absolute_path` means: the resolution of path components one by one. */
module PathMeaning {
  import opened AbsolutePath

  // ---- Names ----

  /** The first slash, or the length. */
  function SlashAt(s: string): (k: nat)
    ensures k <= |s| && NoSlash(s[..k]) && (k < |s| ==> s[k] == '/')
  {
    if |s| == 0 || s[0] == '/' then 0
    else
      var k := 1 + SlashAt(s[1..]);
      assert s[..k] == [s[0]] + s[1..][..k - 1];
      k
  }

  lemma {:induction false} SlashNotBehind(s: string, i: nat)
    requires i < |s| && s[i] == '/'
    ensures SlashAt(s) <= i
  {
    if s[0] != '/' {
      SlashNotBehind(s[1..], i - 1);
    }
  }

  /** The names between the slashes of a path, in order. */
  function Names(s: string): seq<string>
    decreases |s|
  {
    if |s| == 0 then []
    else if s[0] == '/' then Names(s[1..])
    else [s[..SlashAt(s)]] + Names(s[SlashAt(s)..])
  }

  /** What a path means, starting in the directory `at`: `.` stays, `..` leaves the last
      directory, any other name enters one. */
  function Walk(at: seq<string>, names: seq<string>): seq<string>
    decreases |names|
  {
    if |names| == 0 then at
    else if names[0] == "." then Walk(at, names[1..])
    else if names[0] == ".." then Walk(if |at| > 0 then at[..|at| - 1] else [], names[1..])
    else Walk(at + [names[0]], names[1..])
  }

  function Filled(stack: seq<string>): seq<string> {
    if |stack| == 0 then []
    else Filled(stack[..|stack| - 1]) + if stack[|stack| - 1] == "" then [] else [stack[|stack| - 1]]
  }

  function NamesIn(p: Place): seq<string> { Filled(p.stack) + if p.open == "" then [] else [p.open] }

  lemma NamesOfSlash(s: string)
    requires s != "" && s[0] == '/'
    ensures Names(s) == Names(s[1..])
  {
  }

  lemma NamesOfName(c: string, t: string)
    requires NoSlash(c) && c != "" && (t == "" || t[0] == '/')
    ensures Names(c + t) == [c] + Names(t)
  {
    SlashAtEnd(c, t);
    assert (c + t)[..|c|] == c && (c + t)[|c|..] == t;
  }

  /** A name, or nothing, with or without a slash behind it. */
  function Tail(c: string, closed: bool): string { c + if closed then "/" else "" }

  lemma {:induction false} NamesSnoc(s: string, c: string, closed: bool)
    requires NoSlash(c) && (s == "" || s[|s| - 1] == '/')
    ensures Names(s + Tail(c, closed)) == Names(s) + if c == "" then [] else [c]
    decreases |s|
  {
    hide *;
    var t := Tail(c, closed);
    NamesOfOne(c, closed);
    if s == "" {
      NamesOfNothing();
      assert s + t == t;
    } else if s[0] == '/' {
      assert (s + t)[1..] == s[1..] + t;
      NamesOfSlash(s);
      NamesOfSlash(s + t);
      NamesSnoc(s[1..], c, closed);
    } else {
      var k := SlashAt(s);
      SlashNotBehind(s, |s| - 1);
      assert s == s[..k] + s[k..] && s + t == s[..k] + (s[k..] + t);
      SlashAtIsPositive(s);
      NamesOfName(s[..k], s[k..]);
      NamesOfName(s[..k], s[k..] + t);
      NamesSnoc(s[k..], c, closed);
    }
  }

  lemma NamesOfNothing()
    ensures Names("") == []
  {
  }

  lemma SlashAtIsPositive(s: string)
    requires s != "" && s[0] != '/'
    ensures SlashAt(s) > 0
  {
  }

  lemma {:induction false} SlashAtEnd(c: string, t: string)
    requires NoSlash(c) && (t == "" || t[0] == '/')
    ensures SlashAt(c + t) == |c|
  {
    if |c| > 0 {
      assert (c + t)[1..] == c[1..] + t;
      SlashAtEnd(c[1..], t);
    }
  }

  lemma NamesOfOne(c: string, closed: bool)
    requires NoSlash(c)
    ensures Names(Tail(c, closed)) == if c == "" then [] else [c]
  {
    var t := if closed then "/" else "";
    assert Names(t) == [];
    if c != "" {
      NamesOfName(c, t);
    } else {
      assert c + t == t;
    }
  }

  /** The names of a text are its non-empty components. */
  lemma {:induction false} NamesOfText(p: Place)
    requires Clean(p)
    ensures Names(Text(p)) == NamesIn(p)
    decreases |p.stack|
  {
    if |p.stack| > 0 {
      var last := |p.stack| - 1;
      var front := Place(p.stack[..last], "");
      NamesOfText(front);
      assert Text(front) == Closed(p.stack[..last]);
      if last > 0 {
        EndsInSlash(p.stack[..last]);
      }
      NamesSnoc(Text(front), p.stack[last], true);
      assert Text(front) + Tail(p.stack[last], true) == Closed(p.stack);
      EndsInSlash(p.stack);
      NamesSnoc(Closed(p.stack), p.open, false);
      assert Closed(p.stack) + Tail(p.open, false) == Text(p);
    } else {
      NamesSnoc("", p.open, false);
      assert "" + Tail(p.open, false) == Text(p);
    }
  }

  // ---- Resolution ----

  /** No slash follows directly behind `/./` or `/../`. */
  predicate Unbroken(s: string) { forall i :: 0 <= i <= |s| ==> !("/.//" <= s[i..]) && !("/..//" <= s[i..]) }

  predicate EndsIn(s: string, t: string) { |t| <= |s| && s[|s| - |t|..] == t }

  /** The last component is a dot component, without a slash behind it. */
  predicate FinalDot(s: string) { EndsIn(s, "/.") || EndsIn(s, "/..") }

  predicate Plain(s: string) { Unbroken(s) && !FinalDot(s) }

  /** Some components at the bottom that are empty, the root at least, and names on top. */
  predicate Shape(p: Place, at: seq<string>) {
    && p.open == "" && |p.stack| > |at| && p.stack[|p.stack| - |at|..] == at
    && (forall i :: 0 <= i < |at| ==> at[i] != "")
    && (forall i :: 0 <= i < |p.stack| - |at| ==> p.stack[i] == "")
  }

  /** The components of a directory below the root, as a text spells them without any empty ones:
      all closed, or the last one open. */
  function Spelled(names: seq<string>, closed: bool): Place {
    if closed || |names| == 0 then Place([""] + names, "")
    else Place([""] + names[..|names| - 1], names[|names| - 1])
  }

  lemma SpelledStart(p: Place, at: seq<string>)
    requires p.open == "" && p.stack == [""] + at
    ensures p == Spelled(at, true)
  {
  }

  lemma SpelledUp(p: Place, at: seq<string>)
    requires p.stack == [""] + at
    ensures Pop(p.stack) == [""] + if |at| > 0 then at[..|at| - 1] else []
  {
  }

  lemma SpelledName(p: Place, at: seq<string>, c: string)
    requires p.stack == [""] + at
    ensures p.stack + [c] == [""] + (at + [c]) && Place(p.stack, c) == Spelled(at + [c], false)
  {
    assert (at + [c])[..|at|] == at;
  }

  lemma {:induction false} FilledEmpty(stack: seq<string>)
    requires forall i :: 0 <= i < |stack| ==> stack[i] == ""
    ensures Filled(stack) == []
  {
    if |stack| > 0 {
      FilledEmpty(stack[..|stack| - 1]);
    }
  }

  lemma FilledLast(stack: seq<string>)
    requires |stack| > 0
    ensures Filled(stack) == Filled(stack[..|stack| - 1]) + if stack[|stack| - 1] == "" then [] else [stack[|stack| - 1]]
  {
  }

  lemma {:induction false} FilledShape(p: Place, at: seq<string>)
    requires Shape(p, at)
    ensures Filled(p.stack) == at
    decreases |at|
  {
    hide Filled;
    FilledLast(p.stack);
    if |at| == 0 {
      FilledEmpty(p.stack);
    } else {
      var front := Place(p.stack[..|p.stack| - 1], "");
      var n := |p.stack| - |at|;
      assert p.stack[|p.stack| - 1] == p.stack[n..][|at| - 1];
      assert front.stack[n..] == p.stack[n..][..|at| - 1];
      FilledShape(front, at[..|at| - 1]);
    }
  }

  lemma EnterShape(p: Place, at: seq<string>, c: string)
    requires Shape(p, at) && c != ""
    ensures Shape(Place(p.stack + [c], ""), at + [c])
  {
    var n := |p.stack| - |at|;
    assert (p.stack + [c])[n..] == p.stack[n..] + [c];
  }

  lemma LeaveShape(p: Place, at: seq<string>)
    requires Shape(p, at)
    ensures Shape(Place(Pop(p.stack), ""), if |at| > 0 then at[..|at| - 1] else [])
  {
    if |at| > 0 {
      var n := |p.stack| - |at|;
      assert Pop(p.stack)[n..] == p.stack[n..][..|at| - 1];
    } else {
      assert Pop(p.stack)[|Pop(p.stack)|..] == [];
    }
  }

  /** A name is copied character by character. */
  lemma {:induction false} CopyName(stack: seq<string>, open: string, rest: string, room: nat)
    requires |Text(Place(stack, open))| + |rest| <= room
    requires open != "" || (rest != "" && rest[0] != '/' && !("../" <= rest) && !("./" <= rest))
    ensures Resolve(Place(stack, open), rest, room)
         == Resolve(Place(stack, open + rest[..SlashAt(rest)]), rest[SlashAt(rest)..], room)
    decreases |rest|
  {
    if rest != "" && rest[0] != '/' {
      var k := SlashAt(rest[1..]);
      assert rest[..k + 1] == [rest[0]] + rest[1..][..k];
      assert (open + [rest[0]]) + rest[1..][..k] == open + rest[..k + 1];
      assert rest[1..][k..] == rest[k + 1..];
      CopyName(stack, open + [rest[0]], rest[1..], room);
    } else {
      assert rest[..0] == "" && open + "" == open && rest[0..] == rest;
    }
  }

  /** A run of slashes is one slash to the names, and ends at a slash. */
  lemma {:induction false} AfterSlashes(s: string)
    requires s != "" && s[0] == '/'
    ensures Names(s) == Names(SkipSlashes(s))
    ensures var m := |s| - |SkipSlashes(s)|; 0 < m <= |s| && s[m - 1] == '/' && s[m..] == SkipSlashes(s)
  {
    if |s| > 1 && s[1] == '/' {
      AfterSlashes(s[1..]);
    } else {
      assert SkipSlashes(s[1..]) == s[1..];
    }
  }

  lemma PopShrinks(stack: seq<string>)
    ensures |Closed(Pop(stack))| <= |Closed(stack)|
  {
  }

  lemma PlainAt(whole: string, i: nat)
    requires Plain(whole) && i < |whole| && whole[i] == '/'
    ensures var rest := whole[i + 1..];
      && ("../" <= rest ==> rest[3..] == "" || rest[3..][0] != '/')
      && ("./" <= rest ==> rest[2..] == "" || rest[2..][0] != '/')
      && rest != "." && rest != ".."
  {
    var rest, w := whole[i + 1..], whole[i..];
    assert w == "/" + rest;
    assert "../" <= rest && |rest| > 3 && rest[3] == '/' ==> "/..//" <= w;
    assert "./" <= rest && |rest| > 2 && rest[2] == '/' ==> "/.//" <= w;
  }

  /** `../` names the directory above, and what follows starts behind a slash again. */
  lemma UpInPath(whole: string, i: nat)
    requires i < |whole| && whole[i] == '/' && Plain(whole) && "../" <= whole[i + 1..]
    ensures i + 3 < |whole| && whole[i + 3] == '/' && whole[i + 1..][3..] == whole[i + 4..]
    ensures whole[i + 4..] == "" || whole[i + 4..][0] != '/'
    ensures Names(whole[i + 1..]) == [".."] + Names(whole[i + 4..])
  {
    var rest := whole[i + 1..];
    assert whole[i..][1..] == rest;
    assert rest == ".." + rest[2..] && rest[2..][1..] == rest[3..];
    NamesOfName("..", rest[2..]);
    PlainAt(whole, i);
    assert rest[3..] == whole[i + 4..];
  }

  lemma HereInPath(whole: string, i: nat)
    requires i < |whole| && whole[i] == '/' && Plain(whole) && "./" <= whole[i + 1..]
    ensures i + 2 < |whole| && whole[i + 2] == '/' && whole[i + 1..][2..] == whole[i + 3..]
    ensures whole[i + 3..] == "" || whole[i + 3..][0] != '/'
    ensures Names(whole[i + 1..]) == ["."] + Names(whole[i + 3..])
  {
    var rest := whole[i + 1..];
    assert whole[i..][1..] == rest;
    assert rest == "." + rest[1..] && rest[1..][1..] == rest[2..];
    NamesOfName(".", rest[1..]);
    PlainAt(whole, i);
    assert rest[2..] == whole[i + 3..];
  }

  /** Any other component is a name, and it is not a dot component. */
  lemma NameInPath(whole: string, i: nat)
    requires i < |whole| && whole[i] == '/' && Plain(whole)
    requires var rest := whole[i + 1..]; rest != "" && rest[0] != '/' && !("../" <= rest) && !("./" <= rest)
    ensures var rest := whole[i + 1..];
      var c := rest[..SlashAt(rest)];
      && c != "" && c != "." && c != ".." && NoSlash(c)
      && Names(rest) == [c] + Names(rest[SlashAt(rest)..])
  {
    var rest := whole[i + 1..];
    var k := SlashAt(rest);
    assert rest == rest[..k] + rest[k..];
    NamesOfName(rest[..k], rest[k..]);
    if k < |rest| {
      assert rest[..k] == "." ==> "./" <= rest;
      assert rest[..k] == ".." ==> "../" <= rest;
    } else {
      assert rest[..k] == rest;
      PlainAt(whole, i);
    }
  }

  lemma ResolveName(p: Place, rest: string, room: nat)
    requires p.open == "" && |Text(p)| + |rest| <= room
    requires rest != "" && rest[0] != '/' && !("../" <= rest) && !("./" <= rest)
    ensures var k := SlashAt(rest);
      Resolve(p, rest, room)
      == if k == |rest| then Place(p.stack, rest)
         else Resolve(Place(p.stack + [rest[..k]], ""), SkipSlashes(rest[k..]), room)
    ensures SlashAt(rest) < |rest| ==>
              |Text(Place(p.stack + [rest[..SlashAt(rest)]], ""))| == |Text(p)| + SlashAt(rest) + 1
  {
    var k := SlashAt(rest);
    CopyName(p.stack, "", rest, room);
    assert "" + rest[..k] == rest[..k];
    TextOfClose(Place(p.stack, rest[..k]));
    assert p == Place(p.stack, "");
    if k == |rest| {
      assert rest[..k] == rest && rest[k..] == "";
    }
  }

  /** The resolution of the rest of a plain path, right behind a slash, walks its names. */
  lemma {:induction false} ResolveWalks(p: Place, at: seq<string>, whole: string, i: nat, room: nat)
    requires i < |whole| && whole[i] == '/' && Plain(whole) && Shape(p, at) && Clean(p)
    requires whole[i + 1..] == "" || whole[i + 1..][0] != '/'
    requires |Text(p)| + |whole[i + 1..]| <= room
    ensures Clean(Resolve(p, whole[i + 1..], room))
    ensures NamesIn(Resolve(p, whole[i + 1..], room)) == Walk(at, Names(whole[i + 1..]))
    ensures whole[|whole| - 1] == '/' ==> Shape(Resolve(p, whole[i + 1..], room), Walk(at, Names(whole[i + 1..])))
    ensures p.stack == [""] + at ==>
              Resolve(p, whole[i + 1..], room) == Spelled(Walk(at, Names(whole[i + 1..])), whole[|whole| - 1] == '/')
    decreases |whole| - i, 1
  {
    hide Names, SlashAt, Plain, Shape, Filled, SkipSlashes, Text, Spelled;
    var rest := whole[i + 1..];
    if rest == "" {
      FilledShape(p, at);
      NamesOfNothing();
      ShapeIsClosed(p, at);
      if p.stack == [""] + at {
        SpelledStart(p, at);
      }
    } else if "../" <= rest {
      UpInPath(whole, i);
      if p.stack == [""] + at {
        SpelledUp(p, at);
      }
      LeaveShape(p, at);
      ShapeIsClosed(p, at);
      UpIsClean(p);
      ResolveWalks(Place(Pop(p.stack), ""), if |at| > 0 then at[..|at| - 1] else [], whole, i + 3, room);
      UpStep(p, rest, room);
    } else if "./" <= rest {
      HereInPath(whole, i);
      ShapeIsClosed(p, at);
      ResolveWalks(p, at, whole, i + 2, room);
      HereStep(p, rest, room);
    } else {
      WalkName(p, at, whole, i, room);
    }
  }

  lemma WalkName(p: Place, at: seq<string>, whole: string, i: nat, room: nat)
    requires i < |whole| && whole[i] == '/' && Plain(whole) && Shape(p, at) && Clean(p)
    requires var rest := whole[i + 1..]; rest != "" && rest[0] != '/' && !("../" <= rest) && !("./" <= rest)
    requires |Text(p)| + |whole[i + 1..]| <= room
    ensures Clean(Resolve(p, whole[i + 1..], room))
    ensures NamesIn(Resolve(p, whole[i + 1..], room)) == Walk(at, Names(whole[i + 1..]))
    ensures whole[|whole| - 1] == '/' ==> Shape(Resolve(p, whole[i + 1..], room), Walk(at, Names(whole[i + 1..])))
    ensures p.stack == [""] + at ==>
              Resolve(p, whole[i + 1..], room) == Spelled(Walk(at, Names(whole[i + 1..])), whole[|whole| - 1] == '/')
    decreases |whole| - i, 0
  {
    hide Names, SlashAt, Plain, Shape, Filled, SkipSlashes, Text, Resolve, Walk, NamesIn, Clean, Spelled;
    var rest := whole[i + 1..];
    var k := SlashAt(rest);
    var c := rest[..k];
    NameInPath(whole, i);
    ShapeIsClosed(p, at);
    ResolveName(p, rest, room);
    WalkOne(at, c, Names(rest[k..]));
    if p.stack == [""] + at {
      SpelledName(p, at, c);
    }
    if k == |rest| {
      LastName(p, at, c);
      assert c == rest && rest[k..] == "";
      NamesOfNothing();
      assert whole[|whole| - 1] == c[k - 1];
    } else {
      assert rest[k..] == whole[i + 1 + k..];
      var j := NextSlash(whole, i + 1 + k);
      EnterShape(p, at, c);
      EnterIsClean(p, c);
      ResolveWalks(Place(p.stack + [c], ""), at + [c], whole, j, room);
    }
  }

  /** A name with nothing behind it stays open. */
  lemma LastName(p: Place, at: seq<string>, c: string)
    requires Shape(p, at) && Clean(p) && c != "" && NoSlash(c)
    ensures NamesIn(Place(p.stack, c)) == at + [c] && Walk(at + [c], []) == at + [c]
    ensures Clean(Place(p.stack, c)) && c[|c| - 1] != '/'
  {
    FilledShape(p, at);
  }

  /** The last slash of the run that starts at `s`. */
  lemma NextSlash(whole: string, s: nat) returns (j: nat)
    requires s < |whole| && whole[s] == '/'
    ensures s <= j < |whole| && whole[j] == '/' && whole[j + 1..] == SkipSlashes(whole[s..])
    ensures Names(whole[s..]) == Names(whole[j + 1..])
    ensures whole[j + 1..] == "" || whole[j + 1..][0] != '/'
  {
    AfterSlashes(whole[s..]);
    NoSlashNext(whole[s..]);
    var m := |whole[s..]| - |SkipSlashes(whole[s..])|;
    j := s + m - 1;
    assert whole[s..][m..] == whole[s + m..] && whole[s..][m - 1] == whole[s + m - 1];
  }

  lemma WalkOne(at: seq<string>, c: string, names: seq<string>)
    requires c != "." && c != ".."
    ensures Walk(at, [c] + names) == Walk(at + [c], names)
  {
    assert ([c] + names)[1..] == names;
  }

  lemma EnterIsClean(p: Place, c: string)
    requires Clean(p) && NoSlash(c)
    ensures Clean(Place(p.stack + [c], ""))
  {
  }

  lemma NoSlashNext(s: string)
    ensures SkipSlashes(s) == "" || SkipSlashes(s)[0] != '/'
  {
  }

  lemma ShapeIsClosed(p: Place, at: seq<string>)
    requires Shape(p, at)
    ensures p.open == ""
  {
  }

  lemma UpIsClean(p: Place)
    requires Clean(p) && p.open == ""
    ensures Clean(Place(Pop(p.stack), "")) && |Text(Place(Pop(p.stack), ""))| <= |Text(p)|
  {
    PopShrinks(p.stack);
  }

  lemma UpStep(p: Place, rest: string, room: nat)
    requires p.open == "" && "../" <= rest && |Text(p)| < room
    ensures Resolve(p, rest, room) == Resolve(Place(Pop(p.stack), ""), rest[3..], room)
  {
  }

  lemma HereStep(p: Place, rest: string, room: nat)
    requires p.open == "" && "./" <= rest && |Text(p)| < room
    ensures Resolve(p, rest, room) == Resolve(p, rest[2..], room)
  {
    assert rest[1] == '/';
  }

  // ---- The working directory ----

  /** A working directory as the system spells it. */
  predicate Canonical(cwd: string) {
    cwd == "/" || (cwd != "" && cwd[0] == '/' && forall i :: 0 <= i < |cwd| && cwd[i] == '/' ==> i + 1 < |cwd| && cwd[i + 1] != '/')
  }

  lemma {:induction false} PlaceOfCanonical(s: string)
    requires s != "" && s[0] == '/'
    requires forall i :: 0 <= i < |s| - 1 && s[i] == '/' ==> s[i + 1] != '/'
    ensures var p := PlaceOf(s);
      && |p.stack| > 0 && p.stack[0] == "" && (p.open == "" <==> s[|s| - 1] == '/')
      && forall i :: 1 <= i < |p.stack| ==> p.stack[i] != ""
    decreases |s|
  {
    if |s| > 1 {
      PlaceOfCanonical(s[..|s| - 1]);
    } else {
      assert PlaceOf("") == Place([], "") && s[..0] == "";
    }
  }

  lemma PlaceOfClosed(cwd: string)
    ensures PlaceOf(cwd + "/") == Place(PlaceOf(cwd).stack + [PlaceOf(cwd).open], "")
  {
    assert (cwd + "/")[..|cwd|] == cwd;
  }

  /** The root, or names on the root. */
  lemma ShapeOfRoot(p: Place)
    requires |p.stack| > 0 && p.stack[0] == "" && p.open == ""
    ensures (forall i :: 0 <= i < |p.stack| ==> p.stack[i] == "") ==> Shape(p, [])
    ensures (forall i :: 1 <= i < |p.stack| ==> p.stack[i] != "") ==> Shape(p, p.stack[1..])
  {
    assert p.stack[|p.stack|..] == [];
  }

  lemma RootIsCanonical()
    ensures PlaceOf("/") == Place([""], "")
  {
    assert PlaceOf("") == Place([], "");
    assert "/"[..0] == "" && [] + [""] == [""];
  }

  lemma CanonicalShape(cwd: string)
    requires Canonical(cwd)
    ensures Shape(PlaceOf(cwd + "/"), Names(cwd)) && Clean(PlaceOf(cwd + "/"))
    ensures cwd != "/" ==> PlaceOf(cwd + "/").stack == [""] + Names(cwd)
  {
    hide Names, Shape, Filled, Text;
    var p := PlaceOf(cwd + "/");
    PlaceOfClosed(cwd);
    PlaceOfCanonical(cwd);
    RootIsCanonical();
    ShapeOfRoot(p);
    var at := if cwd == "/" then [] else p.stack[1..];
    assert Shape(p, at);
    FilledShape(p, at);
    NamesOfText(p);
    assert NamesIn(p) == at;
    assert cwd != "/" ==> p.stack == [""] + at;
    NamesOfClosed(cwd);
  }

  lemma NamesOfClosed(cwd: string)
    ensures Names(cwd + "/") == Names(cwd)
  {
    var p := PlaceOf(cwd);
    NamesOfText(p);
    NamesOfText(Place(p.stack + [p.open], ""));
    TextOfClose(p);
    FilledLast(p.stack + [p.open]);
    assert (p.stack + [p.open])[..|p.stack|] == p.stack;
  }
}
