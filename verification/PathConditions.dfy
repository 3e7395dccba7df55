/** Exactly when `get_absolute_path` leads where the names of its argument lead. */
module PathConditions {
  import opened AbsolutePath
  import opened PathMeaning

  predicate IsAbsolute(path: string) { path != "" && path[0] == '/' }

  /** The directory a path is read from, as names. */
  function Start(path: string, cwd: string): seq<string> { if IsAbsolute(path) then [] else Names(cwd) }

  /** The resolved path names the directory that the path means. */
  predicate Right(path: string, cwd: string, room: nat) {
    Names(Resolved(path, cwd, room)) == Walk(Start(path, cwd), Names(path))
  }

  /** The working directory is one, and there is room for it and for the path. */
  predicate Fits(path: string, cwd: string, room: nat) {
    if IsAbsolute(path) then |path| <= room else Canonical(cwd) && |cwd| + 1 + |path| <= room
  }

  // ---- Resolving in two parts ----

  /** A path, or nothing, that ends behind a slash. */
  predicate Stops(s: string) { s != "" ==> s[|s| - 1] == '/' }

  lemma {:induction false} SkipBoth(a: string, b: string)
    requires a != "" && Stops(a) && (b != "" ==> b[0] != '/')
    ensures SkipSlashes(a + b) == SkipSlashes(a) + b && Stops(SkipSlashes(a))
    decreases |a|
  {
    if a[0] != '/' {
    } else if |a| == 1 {
      assert a + b == "/" + b && (a + b)[1..] == b && a[1..] == "";
    } else {
      assert (a + b)[1..] == a[1..] + b;
      SkipBoth(a[1..], b);
    }
  }

  /** A text whose only slash is its last character is seen ahead in `a + b` if it is in `a`. */
  lemma SeenAhead(a: string, b: string, t: string)
    requires a != "" && Stops(a) && t != "" && NoSlash(t[..|t| - 1])
    ensures t <= a + b <==> t <= a
  {
    assert forall k :: 0 <= k < |t| - 1 ==> t[..|t| - 1][k] == t[k];
    assert (a + b)[|a| - 1] == a[|a| - 1];
  }

  lemma TailAhead(a: string, b: string, n: nat)
    requires n <= |a| && Stops(a)
    ensures (a + b)[n..] == a[n..] + b && Stops(a[n..])
  {
  }

  lemma DotsAhead(a: string, b: string)
    requires a != "" && Stops(a)
    ensures "../" <= a + b <==> "../" <= a
    ensures "./" <= a + b <==> "./" <= a
    ensures "../" <= a ==> (a + b)[3..] == a[3..] + b && Stops(a[3..])
    ensures "./" <= a ==> (a + b)[2..] == a[2..] + b && Stops(a[2..])
    ensures (a + b)[0] == a[0] && (a + b)[1..] == a[1..] + b && Stops(a[1..])
  {
    hide Stops;
    assert "../"[..2] == ".." && "./"[..1] == ".";
    SeenAhead(a, b, "../");
    SeenAhead(a, b, "./");
    TailAhead(a, b, 1);
    if |a| >= 2 {
      TailAhead(a, b, 2);
    }
    if |a| >= 3 {
      TailAhead(a, b, 3);
    }
  }

  /** Behind a slash the rest of a path is resolved by itself. */
  lemma {:induction false} ResolveSplit(p: Place, a: string, b: string, room: nat)
    requires Stops(a) && (b != "" ==> b[0] != '/') && |Text(p)| + |a| <= room
    requires a == "" ==> p.open == ""
    ensures Resolve(p, a + b, room) == Resolve(Resolve(p, a, room), b, room)
    ensures Resolve(p, a, room).open == "" && |Text(Resolve(p, a, room))| <= |Text(p)| + |a|
    decreases |a|
  {
    hide Text, SkipSlashes, Pop;
    if a == "" {
      assert a + b == b;
    } else {
      DotsAhead(a, b);
      if a[0] == '/' {
        SkipBoth(a, b);
        TextOfClose(p);
        SkipShortens(a);
        ResolveSplit(Place(p.stack + [p.open], ""), SkipSlashes(a), b, room);
      } else if p.open == "" && "../" <= a {
        PopText(p);
        ResolveSplit(Place(Pop(p.stack), ""), a[3..], b, room);
      } else if p.open == "" && "./" <= a {
        ResolveSplit(p, a[2..], b, room);
      } else {
        CopyText(p, a[0]);
        assert a[1..] != "";
        ResolveSplit(Place(p.stack, p.open + [a[0]]), a[1..], b, room);
      }
    }
  }

  lemma SkipShortens(a: string)
    requires a != "" && a[0] == '/'
    ensures |SkipSlashes(a)| < |a|
  {
  }

  lemma PopText(p: Place)
    requires p.open == ""
    ensures |Text(Place(Pop(p.stack), ""))| <= |Text(p)|
  {
    PopShrinks(p.stack);
  }

  lemma CopyText(p: Place, c: char)
    ensures |Text(Place(p.stack, p.open + [c]))| == |Text(p)| + 1
  {
  }

  lemma {:induction false} ResolveIsClean(p: Place, rest: string, room: nat)
    requires Clean(p)
    ensures Clean(Resolve(p, rest, room))
    decreases |rest|
  {
    hide Text;
    if rest == "" || |Text(p)| >= room {
    } else if rest[0] == '/' {
      ResolveIsClean(Place(p.stack + [p.open], ""), SkipSlashes(rest), room);
    } else if p.open == "" && "../" <= rest {
      ResolveIsClean(Place(Pop(p.stack), ""), rest[3..], room);
    } else if p.open == "" && "./" <= rest {
      ResolveIsClean(p, rest[2..], room);
    } else {
      ResolveIsClean(Place(p.stack, p.open + [rest[0]]), rest[1..], room);
    }
  }

  // ---- Names in two parts ----

  lemma {:induction false} NamesJoin(a: string, b: string)
    requires Stops(a)
    ensures Names(a + b) == Names(a) + Names(b)
    decreases |a|
  {
    hide Names, SlashAt;
    if a == "" {
      NamesOfNothing();
      assert a + b == b;
    } else if a[0] == '/' {
      NamesOfSlash(a);
      NamesOfSlash(a + b);
      assert (a + b)[1..] == a[1..] + b;
      NamesJoin(a[1..], b);
    } else {
      var k := SlashAt(a);
      SlashNotBehind(a, |a| - 1);
      SlashAtIsPositive(a);
      assert a == a[..k] + a[k..] && a + b == a[..k] + (a[k..] + b);
      NamesOfName(a[..k], a[k..]);
      NamesOfName(a[..k], a[k..] + b);
      NamesJoin(a[k..], b);
    }
  }

  lemma {:induction false} WalkJoin(at: seq<string>, a: seq<string>, b: seq<string>)
    ensures Walk(at, a + b) == Walk(Walk(at, a), b)
    decreases |a|
  {
    if a == [] {
      assert a + b == b;
    } else {
      assert (a + b)[1..] == a[1..] + b;
      var next := if a[0] == "." then at else if a[0] == ".." then (if |at| > 0 then at[..|at| - 1] else []) else at + [a[0]];
      WalkJoin(next, a[1..], b);
    }
  }

  predicate IsDot(d: string) { d == "." || d == ".." }

  /** Where a dot component leads. */
  function Dotted(at: seq<string>, d: string): seq<string> {
    if d == "." || |at| == 0 then at else at[..|at| - 1]
  }

  lemma WalkDot(at: seq<string>, d: string)
    requires IsDot(d)
    ensures Walk(at, [d]) == Dotted(at, d)
  {
    assert Walk(Dotted(at, d), [d][1..]) == Dotted(at, d);
  }

  lemma NamesOfDot(d: string)
    requires IsDot(d)
    ensures Names(d) == [d] && NoSlash(d)
  {
    NamesOfName(d, "");
    NamesOfNothing();
    assert d + "" == d;
  }

  // ---- Plain paths ----

  /** Resolving a plain path that fits. */
  function Reached(path: string, cwd: string, room: nat): Place { Resolve(Base(path, cwd, room), path, room) }

  lemma RootPlace()
    ensures var root := Place([""], ""); Text(root) == "/" && Shape(root, []) && Clean(root)
  {
    ClosedSnoc([], "");
    assert [] + [""] == [""];
    assert [""][1..] == [];
  }

  lemma EnterRoot(path: string, room: nat)
    requires IsAbsolute(path) && |path| <= room
    ensures Resolve(Place([], ""), path, room) == Resolve(Place([""], ""), SkipSlashes(path), room)
  {
    assert [] + [""] == [""];
  }

  lemma ReachedAbsolute(path: string, cwd: string, room: nat)
    requires IsAbsolute(path) && Plain(path) && |path| <= room
    ensures var r := Reached(path, cwd, room);
      NamesIn(r) == Walk([], Names(path)) && (Stops(path) ==> Shape(r, Walk([], Names(path))))
    ensures Reached(path, cwd, room) == Spelled(Walk([], Names(path)), Stops(path))
  {
    hide Plain, Walk, NamesIn, Names, Text, SkipSlashes, Resolve, Shape, Spelled;
    AfterSlashes(path);
    NoSlashNext(path);
    RootPlace();
    EnterRoot(path, room);
    var m := |path| - |SkipSlashes(path)|;
    assert path[m - 1 + 1..] == SkipSlashes(path);
    assert [""] + [] == [""];
    ResolveWalks(Place([""], ""), [], path, m - 1, room);
  }

  lemma BaseRelative(path: string, cwd: string, room: nat)
    requires !IsAbsolute(path) && Fits(path, cwd, room)
    ensures Base(path, cwd, room) == PlaceOf(cwd + "/") && Canonical(cwd)
  {
  }

  lemma ReachedRelative(path: string, cwd: string, room: nat)
    requires !IsAbsolute(path) && Plain("/" + path) && Fits(path, cwd, room)
    ensures var r := Reached(path, cwd, room);
      NamesIn(r) == Walk(Names(cwd), Names(path)) && (Stops(path) ==> Shape(r, Walk(Names(cwd), Names(path))))
    ensures cwd != "/" ==> Reached(path, cwd, room) == Spelled(Walk(Names(cwd), Names(path)), Stops(path))
  {
    hide Plain, Walk, Names, Canonical, Shape, Spelled, Resolve, Text, NamesIn, PlaceOf, Clean, Base;
    CanonicalShape(cwd);
    BaseRelative(path, cwd, room);
    var p := PlaceOf(cwd + "/");
    ShapeIsClosed(p, Names(cwd));
    assert p == Place(p.stack, "");
    assert ("/" + path)[1..] == path;
    ResolveWalks(p, Names(cwd), "/" + path, 0, room);
  }

  lemma BaseIsClean(path: string, cwd: string, room: nat)
    ensures Clean(Base(path, cwd, room))
  {
  }

  lemma BaseFits(path: string, cwd: string, room: nat)
    requires Fits(path, cwd, room)
    ensures |Text(Base(path, cwd, room))| + |path| <= room
    ensures path == "" ==> Base(path, cwd, room).open == ""
  {
    if !IsAbsolute(path) {
      assert (cwd + "/")[..|cwd|] == cwd;
    }
  }

  /** The slash put in front changes nothing for an absolute path. */
  lemma PlainBehindSlash(path: string)
    requires IsAbsolute(path) && Plain("/" + path)
    ensures Plain(path)
  {
    assert forall i :: 0 <= i <= |path| ==> ("/" + path)[i + 1..] == path[i..];
  }

  lemma PlainReached(path: string, cwd: string, room: nat)
    requires Fits(path, cwd, room) && Plain("/" + path)
    ensures var r := Reached(path, cwd, room); var at := Walk(Start(path, cwd), Names(path));
      Clean(r) && NamesIn(r) == at && (Stops(path) ==> Shape(r, at))
  {
    hide Plain, Shape, Walk, Names, NamesIn, Stops;
    BaseIsClean(path, cwd, room);
    ResolveIsClean(Base(path, cwd, room), path, room);
    if IsAbsolute(path) {
      PlainBehindSlash(path);
      ReachedAbsolute(path, cwd, room);
    } else {
      ReachedRelative(path, cwd, room);
    }
  }

  // ---- A dot component at the end ----

  /** What stands before a final dot component, and that component. */
  lemma CutFinalDot(path: string) returns (front: string, d: string)
    requires FinalDot("/" + path)
    ensures path == front + d && Stops(front) && IsDot(d)
  {
    var n := if EndsIn("/" + path, "/.") then 1 else 2;
    front, d := path[..|path| - n], path[|path| - n..];
    var s := "/" + path;
    assert s[|s| - n - 1..][1..] == d;
    assert s[|s| - n - 1..][0] == '/';
    assert front != "" ==> front[|front| - 1] == s[|s| - n - 1];
  }

  lemma OpenDot(p: Place, d: string, room: nat)
    requires p.open == "" && IsDot(d) && |Text(p)| + |d| <= room
    ensures Resolve(p, d, room) == Place(p.stack, d)
  {
    if d == "." {
      assert Resolve(p, d, room) == Resolve(Place(p.stack, "" + "."), d[1..], room);
    } else {
      assert d[1..] == "." && d[1] == '.';
      assert Resolve(p, d, room) == Resolve(Place(p.stack, "" + "."), ".", room);
      assert Resolve(Place(p.stack, "."), ".", room) == Resolve(Place(p.stack, "." + "."), "", room);
    }
  }

  lemma SameBase(front: string, d: string, cwd: string, room: nat)
    requires Stops(front) && d != "" && d[0] != '/'
    ensures Base(front + d, cwd, room) == Base(front, cwd, room) && IsAbsolute(front + d) == IsAbsolute(front)
    ensures Start(front + d, cwd) == Start(front, cwd)
  {
    assert front != "" ==> (front + d)[0] == front[0];
  }

  /** Whatever the path looks like, its final dot component is left open as a name. */
  lemma FinalDotIsCopied(path: string, front: string, d: string, cwd: string, room: nat)
    requires path == front + d && Stops(front) && IsDot(d) && Fits(path, cwd, room)
    ensures Reached(path, cwd, room) == Place(Reached(front, cwd, room).stack, d)
    ensures Reached(front, cwd, room).open == "" && Fits(front, cwd, room)
  {
    hide Names, Resolve, Text, PlaceOf;
    SameBase(front, d, cwd, room);
    BaseFits(path, cwd, room);
    BaseFits(front, cwd, room);
    ResolveSplit(Base(front, cwd, room), front, d, room);
    OpenDot(Reached(front, cwd, room), d, room);
  }

  lemma WrongByOne(stack: seq<string>, d: string, at: seq<string>)
    requires IsDot(d) && NamesIn(Place(stack, "")) == at
    ensures NamesIn(Place(stack, d)) != Walk(at, [d])
  {
    WalkDot(at, d);
    assert |NamesIn(Place(stack, d))| == |at| + 1;
  }

  lemma NotAhead(t: string, a: string, b: string)
    requires !(t <= a + b)
    ensures !(t <= a)
  {
    assert |t| <= |a| ==> (a + b)[..|t|] == a[..|t|];
  }

  lemma UnbrokenAt(s: string, d: string, i: nat)
    requires Unbroken(s + d) && i <= |s|
    ensures !("/.//" <= s[i..]) && !("/..//" <= s[i..])
  {
    assert (s + d)[i..] == s[i..] + d;
    NotAhead("/.//", s[i..], d);
    NotAhead("/..//", s[i..], d);
  }

  lemma UnbrokenFront(front: string, d: string)
    requires Unbroken("/" + (front + d)) && Stops(front)
    ensures Plain("/" + front)
  {
    var s := "/" + front;
    assert "/" + (front + d) == s + d;
    assert s[|s| - 1] == '/';
    forall i | 0 <= i <= |s|
      ensures !("/.//" <= s[i..]) && !("/..//" <= s[i..])
    {
      UnbrokenAt(s, d, i);
    }
  }

  lemma FinalDotIsWrong(path: string, cwd: string, room: nat)
    requires Fits(path, cwd, room) && Unbroken("/" + path) && FinalDot("/" + path)
    ensures !Right(path, cwd, room)
  {
    hide Plain, Unbroken, FinalDot, Stops, Names, Walk, Resolve, Shape, NamesIn, Text, PlaceOf;
    var front, d := CutFinalDot(path);
    FinalDotIsCopied(path, front, d, cwd, room);
    UnbrokenFront(front, d);
    PlainReached(front, cwd, room);
    var at := Walk(Start(front, cwd), Names(front));
    var r := Reached(front, cwd, room);
    assert r == Place(r.stack, "");
    WrongByOne(r.stack, d, at);
    NamesJoin(front, d);
    NamesOfDot(d);
    WalkJoin(Start(front, cwd), Names(front), [d]);
    SameBase(front, d, cwd, room);
    CleanWithDot(r, d);
    NamesOfText(Place(r.stack, d));
  }

  lemma CleanWithDot(p: Place, d: string)
    requires Clean(p) && IsDot(d)
    ensures Clean(Place(p.stack, d))
  {
  }

  // ---- The results ----

  lemma MeaningOfUnbroken(path: string, cwd: string, room: nat)
    requires Fits(path, cwd, room) && Unbroken("/" + path)
    ensures Right(path, cwd, room) <==> !FinalDot("/" + path)
  {
    hide Unbroken, FinalDot, Names, Walk, Resolve, Shape, NamesIn, Text, Fits;
    if FinalDot("/" + path) {
      FinalDotIsWrong(path, cwd, room);
    } else {
      PlainReached(path, cwd, room);
      NamesOfText(Reached(path, cwd, room));
    }
  }

  /** An absolute path without a slash right behind a dot component, in a buffer it fits into,
      resolves to the directory that walking its names from the root leads to, if and only if
      it does not end in a dot component. */
  lemma AbsoluteMeaning(path: string, cwd: string, room: nat)
    requires IsAbsolute(path) && Unbroken(path) && |path| <= room
    ensures Right(path, cwd, room) <==> !FinalDot(path)
  {
    hide Names, Walk, Resolve, Text, Unbroken, FinalDot;
    UnbrokenSlashed(path);
    LastOfSlashed(path);
    MeaningOfUnbroken(path, cwd, room);
  }

  lemma UnbrokenSlashed(path: string)
    requires IsAbsolute(path) && Unbroken(path)
    ensures Unbroken("/" + path)
  {
    var s := "/" + path;
    forall i | 0 <= i <= |s|
      ensures !("/.//" <= s[i..]) && !("/..//" <= s[i..])
    {
      if i == 0 {
        assert s[0..][1] == path[0];
      } else {
        assert s[i..] == path[i - 1..];
      }
    }
  }

  lemma LastOfSlashed(path: string)
    requires IsAbsolute(path)
    ensures FinalDot("/" + path) <==> FinalDot(path)
  {
    var s := "/" + path;
    assert |path| >= 2 ==> s[|s| - 2..] == path[|path| - 2..];
    assert |path| >= 3 ==> s[|s| - 3..] == path[|path| - 3..];
    assert |path| == 1 ==> s[|s| - 2..] == "//";
    assert |path| == 2 ==> s[|s| - 3..] == "/" + path && s[|s| - 3..][1] == '/';
  }

  /** Any other path leads, under the same condition, where its names lead from the working
      directory. */
  lemma RelativeMeaning(path: string, cwd: string, room: nat)
    requires !IsAbsolute(path) && Unbroken("/" + path) && Fits(path, cwd, room)
    ensures Right(path, cwd, room) <==> !FinalDot("/" + path)
  {
    MeaningOfUnbroken(path, cwd, room);
  }

  // ---- The text ----

  /** A directory spelled out: a slash in front, one between the names, and one behind them if
      asked for; the root is a single slash. */
  function Spelling(names: seq<string>, closed: bool): string {
    if |names| == 0 then "/"
    else if |names| == 1 then "/" + names[0] + if closed then "/" else ""
    else "/" + names[0] + Spelling(names[1..], closed)
  }

  /** One more name behind a directory. */
  function Last(c: string, closed: bool): string { "/" + c + if closed then "/" else "" }

  lemma SpellingStep(names: seq<string>, closed: bool)
    requires |names| > 1
    ensures Spelling(names, closed) == ("/" + names[0]) + Spelling(names[1..], closed)
  {
  }

  lemma Regroup(a: string, b: string, c: string)
    ensures a + (b + c) == (a + b) + c
  {
  }

  lemma {:induction false} SpellingSnoc(names: seq<string>, c: string, closed: bool)
    ensures Spelling(names + [c], closed) == (if |names| == 0 then "" else Spelling(names, false)) + Last(c, closed)
  {
    if |names| <= 1 {
      SpellingOfFew(names, c, closed);
    } else {
      hide Spelling, Last;
      assert (names + [c])[1..] == names[1..] + [c];
      SpellingSnoc(names[1..], c, closed);
      SpellingStep(names + [c], closed);
      SpellingStep(names, false);
      Regroup("/" + names[0], Spelling(names[1..], false), Last(c, closed));
    }
  }

  lemma SpellingOfFew(names: seq<string>, c: string, closed: bool)
    requires |names| <= 1
    ensures Spelling(names + [c], closed) == (if |names| == 0 then "" else Spelling(names, false)) + Last(c, closed)
  {
    if |names| == 0 {
      assert names + [c] == [c];
    } else {
      assert (names + [c])[1..] == [c];
      SpellingStep(names + [c], closed);
      assert "/" + names[0] + "" == "/" + names[0];
    }
  }

  lemma {:induction false} ClosedIsSpelling(names: seq<string>)
    ensures Closed([""] + names) == Spelling(names, true)
    decreases |names|
  {
    hide Closed, Spelling, Last;
    if |names| == 0 {
      RootIsSpelled();
      assert [""] + names == [""];
    } else {
      var front, c := names[..|names| - 1], names[|names| - 1];
      assert names == front + [c] && [""] + names == ([""] + front) + [c];
      ClosedIsSpelling(front);
      ClosedSnoc([""] + front, c);
      SpellingSnoc(front, c, true);
      SpellingCloses(front);
      LastBehindSlash(if |front| == 0 then "" else Spelling(front, false), c);
    }
  }

  lemma LastBehindSlash(a: string, c: string)
    ensures a + Last(c, true) == (a + "/") + c + "/" && a + Last(c, false) == (a + "/") + c
  {
  }

  lemma RootIsSpelled()
    ensures Closed([""]) == "/" && Spelling([], true) == "/" && Spelling([], false) == "/"
  {
    RootPlace();
  }

  lemma {:induction false} SpellingCloses(names: seq<string>)
    ensures Spelling(names, true) == (if |names| == 0 then "" else Spelling(names, false)) + "/"
  {
    if |names| > 1 {
      SpellingCloses(names[1..]);
    }
  }

  lemma SpelledText(names: seq<string>, closed: bool)
    ensures Text(Spelled(names, closed)) == Spelling(names, closed)
  {
    hide Closed, Spelling, Last;
    if |names| == 0 {
      RootIsSpelled();
      assert [""] + names == [""] && names == [];
    } else if closed {
      ClosedIsSpelling(names);
    } else {
      var front, c := names[..|names| - 1], names[|names| - 1];
      assert names == front + [c];
      ClosedIsSpelling(front);
      SpellingSnoc(front, c, false);
      SpellingCloses(front);
      LastBehindSlash(if |front| == 0 then "" else Spelling(front, false), c);
    }
  }

  /** A plain path resolves to the spelling of the directory meant, without any empty component,
      and ends in a slash exactly when the path does: for an absolute path, and for any other if
      the working directory is not the root. */
  lemma PlainText(path: string, cwd: string, room: nat)
    requires Fits(path, cwd, room) && Plain("/" + path) && (IsAbsolute(path) || cwd != "/")
    ensures Resolved(path, cwd, room) == Spelling(Walk(Start(path, cwd), Names(path)), Stops(path))
  {
    hide Plain, Walk, Names, Spelled, Stops, Text, Resolve, Spelling;
    if IsAbsolute(path) {
      PlainBehindSlash(path);
      ReachedAbsolute(path, cwd, room);
    } else {
      ReachedRelative(path, cwd, room);
    }
    SpelledText(Walk(Start(path, cwd), Names(path)), Stops(path));
  }

  predicate NoDots(names: seq<string>) { forall i :: 0 <= i < |names| ==> !IsDot(names[i]) }

  lemma {:induction false} WalkHasNoDots(at: seq<string>, names: seq<string>)
    requires NoDots(at)
    ensures NoDots(Walk(at, names))
    decreases |names|
  {
    if |names| > 0 {
      WalkHasNoDots(
        if names[0] == "." then at else if names[0] == ".." then (if |at| > 0 then at[..|at| - 1] else []) else at + [names[0]],
        names[1..]);
    }
  }

  /** A final dot component is taken for a name in every path, wherever slashes stand in it: the
      resolved path ends in it, and so is not the directory meant. */
  lemma DotsAtTheEnd(path: string, cwd: string, room: nat)
    requires Fits(path, cwd, room) && FinalDot("/" + path) && NoDots(Start(path, cwd))
    ensures IsDot(Reached(path, cwd, room).open) && FinalDot("/" + Resolved(path, cwd, room))
    ensures !Right(path, cwd, room)
  {
    hide FinalDot, Stops, Names, Walk, Resolve, Text, PlaceOf, Start;
    var front, d := CutFinalDot(path);
    FinalDotIsCopied(path, front, d, cwd, room);
    var r := Reached(path, cwd, room);
    EndsOpen(r);
    BaseIsClean(path, cwd, room);
    ResolveIsClean(Base(path, cwd, room), path, room);
    NamesOfText(r);
    assert NamesIn(r)[|NamesIn(r)| - 1] == d;
    WalkHasNoDots(Start(path, cwd), Names(path));
  }

  lemma EndsOpen(p: Place)
    requires IsDot(p.open)
    ensures FinalDot("/" + Text(p))
  {
    hide Closed;
    var s, n := "/" + Text(p), |p.open|;
    if |p.stack| > 0 {
      EndsInSlash(p.stack);
    } else {
      NothingClosed();
    }
    assert s[|s| - n - 1] == '/' && s[|s| - n..] == p.open;
    assert s[|s| - n - 1..] == "/" + s[|s| - n..];
  }

  lemma NothingClosed()
    ensures Closed([]) == ""
  {
  }

  // ---- A slash behind a dot component ----

  /** A path with a second slash behind a dot component. */
  function Detour(p: string, d: string, q: string): string { p + (d + "//" + q) }

  /** Behind `d//` the resolution stands in the right directory with an empty component on top. */
  lemma DetourReached(p: string, d: string, q: string, cwd: string, room: nat) returns (stack: seq<string>)
    requires Plain("/" + p) && Stops(p) && IsDot(d) && !IsAbsolute(q) && Fits(Detour(p, d, q), cwd, room)
    ensures var at := Dotted(Walk(Start(p, cwd), Names(p)), d);
      && Shape(Place(stack, ""), at) && Clean(Place(stack + [""], ""))
      && Reached(Detour(p, d, q), cwd, room) == Resolve(Place(stack + [""], ""), q, room)
    ensures |Text(Place(stack + [""], ""))| + |q| <= room
  {
    hide Names, Walk, Resolve, Shape, NamesIn, Text, PlaceOf, Plain, Stops;
    var rest := d + "//" + q;
    assert rest[0] == '.';
    SameBase(p, rest, cwd, room);
    BaseFits(Detour(p, d, q), cwd, room);
    assert Fits(p, cwd, room);
    BaseFits(p, cwd, room);
    ResolveSplit(Base(p, cwd, room), p, rest, room);
    PlainReached(p, cwd, room);
    stack := ThroughDot(Reached(p, cwd, room), Walk(Start(p, cwd), Names(p)), d, q, room);
  }

  lemma ThroughDot(p: Place, at: seq<string>, d: string, q: string, room: nat) returns (stack: seq<string>)
    requires Shape(p, at) && Clean(p) && IsDot(d) && !IsAbsolute(q) && |Text(p)| + |d + "//" + q| <= room
    ensures Shape(Place(stack, ""), Dotted(at, d)) && Clean(Place(stack + [""], ""))
    ensures Resolve(p, d + "//" + q, room) == Resolve(Place(stack + [""], ""), q, room)
    ensures |Text(Place(stack + [""], ""))| + |q| <= room
  {
    hide Resolve, Shape, Text;
    var rest := d + "//" + q;
    ShapeIsClosed(p, at);
    LeaveShape(p, at);
    UpIsClean(p);
    stack := if d == "." then p.stack else Pop(p.stack);
    assert rest[|d| + 1..] == "/" + q;
    if d == "." {
      assert "./" <= rest && p == Place(stack, "");
      HereStep(p, rest, room);
    } else {
      assert "../" <= rest;
      UpStep(p, rest, room);
    }
    assert Dotted(at, d) == if d == "." then at else if |at| > 0 then at[..|at| - 1] else [];
    TextOfClose(Place(stack, ""));
    SlashStep(Place(stack, ""), q, room);
  }

  lemma SlashStep(p: Place, q: string, room: nat)
    requires !IsAbsolute(q) && |Text(p)| < room
    ensures Resolve(p, "/" + q, room) == Resolve(Place(p.stack + [p.open], ""), q, room)
  {
    assert ("/" + q)[1..] == q;
    assert SkipSlashes("/" + q) == q;
  }

  lemma DetourNames(p: string, d: string, q: string)
    requires Stops(p) && IsDot(d) && !IsAbsolute(q)
    ensures Names(Detour(p, d, q)) == Names(p) + ([d] + Names(q))
  {
    hide Names;
    NamesJoin(p, d + "//" + q);
    NamesOfDot(d);
    assert d + "//" + q == d + ("//" + q);
    NamesOfName(d, "//" + q);
    assert ("//" + q)[1..] == "/" + q && ("/" + q)[1..] == q;
    NamesOfSlash("//" + q);
    NamesOfSlash("/" + q);
  }

  lemma DetourMeans(p: string, d: string, q: string, cwd: string)
    requires Stops(p) && IsDot(d) && !IsAbsolute(q)
    ensures var at := Dotted(Walk(Start(p, cwd), Names(p)), d);
      Walk(Start(Detour(p, d, q), cwd), Names(Detour(p, d, q))) == Walk(at, Names(q))
  {
    hide Names, Walk;
    var start := Start(p, cwd);
    SameBase(p, d + "//" + q, cwd, 0);
    DetourNames(p, d, q);
    WalkJoin(start, Names(p), [d] + Names(q));
    WalkJoin(Walk(start, Names(p)), [d], Names(q));
    WalkDot(Walk(start, Names(p)), d);
  }

  /** In the root the empty component is never missed. */
  lemma DetourFromRoot(p: string, d: string, q: string, cwd: string, room: nat)
    requires Plain("/" + p) && Stops(p) && IsDot(d) && !IsAbsolute(q) && Fits(Detour(p, d, q), cwd, room)
    requires Plain("/" + q) && Dotted(Walk(Start(p, cwd), Names(p)), d) == []
    ensures Right(Detour(p, d, q), cwd, room)
  {
    hide Names, Walk, Resolve, NamesIn, Text, PlaceOf, Plain, Stops, Start;
    var stack := DetourReached(p, d, q, cwd, room);
    DetourMeans(p, d, q, cwd);
    var top := Place(stack + [""], "");
    OneMoreEmpty(stack);
    assert ("/" + q)[1..] == q;
    ResolveWalks(top, [], "/" + q, 0, room);
    NamesOfText(Resolve(top, q, room));
  }

  lemma OneMoreEmpty(stack: seq<string>)
    requires Shape(Place(stack, ""), [])
    ensures Shape(Place(stack + [""], ""), [])
  {
    assert (stack + [""])[|stack + [""]|..] == [];
  }

  /** Anywhere else `../` removes the empty component and stays where it is. */
  lemma DetourAndUp(p: string, d: string, cwd: string, room: nat)
    requires Plain("/" + p) && Stops(p) && IsDot(d) && Fits(Detour(p, d, "../"), cwd, room)
    requires Dotted(Walk(Start(p, cwd), Names(p)), d) != []
    ensures !Right(Detour(p, d, "../"), cwd, room)
  {
    hide Names, Walk, Resolve, Shape, Text, PlaceOf, Plain, Stops, Start;
    var at := Dotted(Walk(Start(p, cwd), Names(p)), d);
    var stack := DetourReached(p, d, "../", cwd, room);
    DetourMeans(p, d, "../", cwd);
    UpStep(Place(stack + [""], ""), "../", room);
    NotEmpty(Place(stack, ""), at);
    assert Pop(stack + [""]) == stack && "../"[3..] == "";
    NothingLeft(Place(stack, ""), room);
    FilledShape(Place(stack, ""), at);
    CleanBelow(stack);
    NamesOfText(Place(stack, ""));
    NamesOfUp();
    WalkDot(at, "..");
  }

  lemma NotEmpty(p: Place, at: seq<string>)
    requires Shape(p, at)
    ensures |p.stack| > 0
  {
  }

  lemma NothingLeft(p: Place, room: nat)
    ensures Resolve(p, "", room) == p
  {
  }

  lemma CleanBelow(stack: seq<string>)
    requires Clean(Place(stack + [""], ""))
    ensures Clean(Place(stack, ""))
  {
    assert forall i :: 0 <= i < |stack| ==> (stack + [""])[i] == stack[i];
  }

  lemma NamesOfUp()
    ensures Names("../") == [".."]
  {
    NamesOfDot("..");
    NamesOfName("..", "/");
    assert ".." + "/" == "../" && "/"[1..] == "";
    NamesOfSlash("/");
    NamesOfNothing();
  }

  /** A second slash behind a dot component does no harm, whatever plain path follows, if and
      only if the dot component leads to the root; elsewhere the slash counts as a component
      that `../` then removes instead of the directory before it. */
  lemma SlashBehindDot(p: string, d: string, cwd: string, room: nat)
    requires Plain("/" + p) && Stops(p) && IsDot(d) && Fits(Detour(p, d, "../"), cwd, room)
    ensures (forall q :: Plain("/" + q) && !IsAbsolute(q) && Fits(Detour(p, d, q), cwd, room) ==> Right(Detour(p, d, q), cwd, room))
        <==> Walk(Start(p, cwd), Names(p) + [d]) == []
  {
    hide Names, Walk, Start, Right, Fits, Plain, Stops, Detour;
    WalkJoin(Start(p, cwd), Names(p), [d]);
    WalkDot(Walk(Start(p, cwd), Names(p)), d);
    if Dotted(Walk(Start(p, cwd), Names(p)), d) == [] {
      forall q | Plain("/" + q) && !IsAbsolute(q) && Fits(Detour(p, d, q), cwd, room)
        ensures Right(Detour(p, d, q), cwd, room)
      {
        DetourFromRoot(p, d, q, cwd, room);
      }
    } else {
      DetourAndUp(p, d, cwd, room);
      UpIsPlain();
    }
  }

  lemma UpIsPlain()
    ensures Plain("/" + "../") && !IsAbsolute("../")
  {
    var s := "/" + "../";
    assert s == "/../";
    assert forall i :: 0 <= i <= |s| && |s[i..]| >= 4 ==> i == 0;
    assert s[0..][2] == '.';
  }
}
