/** What `get_absolute_path` leaves when the buffer is too small. */
module PathCut {
  import opened AbsolutePath
  import opened PathMeaning
  import opened PathConditions

  // ---- Looking ahead in the front of a path ----

  lemma {:induction false} SkipInFront(s: string, m: nat)
    requires s != "" && s[0] == '/' && m <= |SkipSlashes(s)|
    ensures var k := |s| - |SkipSlashes(s)|;
      && 0 < k && s[k..] == SkipSlashes(s)
      && SkipSlashes(s[..k + m]) == SkipSlashes(s)[..m]
  {
    var k := |s| - |SkipSlashes(s)|;
    assert s[..k + m][1..] == s[1..][..k + m - 1];
    if |s| > 1 && s[1] == '/' {
      SkipInFront(s[1..], m);
    }
  }

  lemma AheadInFront(rest: string, t: string, m: nat)
    requires m + |t| <= |rest| && t <= rest
    ensures t <= rest[..|t| + m] && rest[..|t| + m][|t|..] == rest[|t|..][..m]
  {
  }

  lemma NotAheadInFront(rest: string, n: nat)
    requires n <= |rest|
    ensures "../" <= rest[..n] ==> "../" <= rest
    ensures "./" <= rest[..n] ==> "./" <= rest
  {
  }

  // ---- Where the resolution stops ----

  lemma StopsAtOnce(p: Place, rest: string, room: nat)
    requires rest == "" || |Text(p)| >= room
    ensures Resolve(p, rest, room) == p
  {
  }

  lemma SlashTurn(p: Place, rest: string, room: nat)
    requires rest != "" && rest[0] == '/' && |Text(p)| < room
    ensures Resolve(p, rest, room) == Resolve(Place(p.stack + [p.open], ""), SkipSlashes(rest), room)
  {
    hide Text, SkipSlashes;
  }

  lemma UpTurn(p: Place, rest: string, room: nat)
    requires p.open == "" && "../" <= rest && |Text(p)| < room
    ensures Resolve(p, rest, room) == Resolve(Place(Pop(p.stack), ""), rest[3..], room)
  {
    hide Text, SkipSlashes, Pop;
  }

  lemma StayTurn(p: Place, rest: string, room: nat)
    requires p.open == "" && "./" <= rest && |Text(p)| < room
    ensures Resolve(p, rest, room) == Resolve(p, rest[2..], room)
  {
    assert rest[0] == "./"[0] && rest[1] == "./"[1] && "../"[1] == '.';
    hide Text, SkipSlashes, Pop;
  }

  lemma CopyTurn(p: Place, rest: string, room: nat)
    requires rest != "" && rest[0] != '/' && |Text(p)| < room
    requires p.open == "" ==> !("../" <= rest) && !("./" <= rest)
    ensures Resolve(p, rest, room) == Resolve(Place(p.stack, p.open + [rest[0]]), rest[1..], room)
  {
    hide Text, SkipSlashes, Pop;
  }

  /** The resolution in `room` characters is that of a front of the path in as many as `big`: the
      whole path, or the front that fills the room. */
  lemma {:induction false} CutWhere(p: Place, rest: string, room: nat, big: nat) returns (n: nat)
    requires |Text(p)| <= room <= big
    ensures n <= |rest| && Resolve(p, rest, room) == Resolve(p, rest[..n], big)
    ensures |Text(Resolve(p, rest, room))| <= room
    ensures n == |rest| || |Text(Resolve(p, rest, room))| == room
    decreases |rest|
  {
    hide Text, SkipSlashes, Pop, Resolve;
    if rest == "" || |Text(p)| >= room {
      n := 0;
      StopsAtOnce(p, rest, room);
      NothingLeft(p, big);
    } else if rest[0] == '/' {
      TextOfClose(p);
      SkipShortens(rest);
      var m := CutWhere(Place(p.stack + [p.open], ""), SkipSlashes(rest), room, big);
      SkipInFront(rest, m);
      n := |rest| - |SkipSlashes(rest)| + m;
      SlashTurn(p, rest, room);
      SlashTurn(p, rest[..n], big);
    } else if p.open == "" && "../" <= rest {
      PopText(p);
      var m := CutWhere(Place(Pop(p.stack), ""), rest[3..], room, big);
      AheadInFront(rest, "../", m);
      n := 3 + m;
      UpTurn(p, rest, room);
      UpTurn(p, rest[..n], big);
    } else if p.open == "" && "./" <= rest {
      var m := CutWhere(p, rest[2..], room, big);
      AheadInFront(rest, "./", m);
      n := 2 + m;
      StayTurn(p, rest, room);
      StayTurn(p, rest[..n], big);
    } else {
      CopyText(p, rest[0]);
      var m := CutWhere(Place(p.stack, p.open + [rest[0]]), rest[1..], room, big);
      n := 1 + m;
      NotAheadInFront(rest, n);
      assert rest[..n][1..] == rest[1..][..m];
      CopyTurn(p, rest, room);
      CopyTurn(p, rest[..n], big);
    }
  }

  lemma BaseInRoom(path: string, cwd: string, room: nat)
    requires |cwd| <= room
    ensures |Text(Base(path, cwd, room))| <= room
  {
  }

  /** The first `n` characters of the path are what the room was enough for. */
  predicate EnoughFor(path: string, cwd: string, room: nat, big: nat, n: nat) {
    && n <= |path|
    && Resolved(path, cwd, room) == Text(Resolve(Base(path, cwd, room), path[..n], big))
    && (n == |path| || |Resolved(path, cwd, room)| == room)
  }

  /** With too little room the answer is that for a front of the path, and fills the room; it is
      cut nowhere else. */
  lemma CutToRoom(path: string, cwd: string, room: nat, big: nat)
    requires |cwd| <= room <= big
    ensures |Resolved(path, cwd, room)| <= room
    ensures exists n: nat :: EnoughFor(path, cwd, room, big, n)
  {
    hide Text, Resolve;
    BaseInRoom(path, cwd, room);
    var n := CutWhere(Base(path, cwd, room), path, room, big);
    assert EnoughFor(path, cwd, room, big, n);
  }

  // ---- Paths without dots ----

  lemma {:induction false} Grows(p: Place, rest: string, room: nat)
    requires '.' !in rest
    ensures Text(p) <= Text(Resolve(p, rest, room))
    decreases |rest|
  {
    hide Text, SkipSlashes;
    if rest == "" || |Text(p)| >= room {
    } else if rest[0] == '/' {
      TextOfClose(p);
      SkipShortens(rest);
      SkipInFront(rest, 0);
      Grows(Place(p.stack + [p.open], ""), SkipSlashes(rest), room);
    } else {
      CopiedText(p, rest[0]);
      Grows(Place(p.stack, p.open + [rest[0]]), rest[1..], room);
    }
  }

  lemma CopiedText(p: Place, c: char)
    ensures Text(Place(p.stack, p.open + [c])) == Text(p) + [c]
  {
  }

  function Cut(s: string, room: nat): string { if |s| <= room then s else s[..room] }

  lemma {:induction false} GrowsToRoom(p: Place, rest: string, room: nat, big: nat)
    requires '.' !in rest && |Text(p)| <= room <= big
    ensures Text(Resolve(p, rest, room)) == Cut(Text(Resolve(p, rest, big)), room)
    decreases |rest|
  {
    hide Text, SkipSlashes;
    if rest == "" || |Text(p)| >= room {
      Grows(p, rest, big);
    } else if rest[0] == '/' {
      TextOfClose(p);
      SkipShortens(rest);
      SkipInFront(rest, 0);
      GrowsToRoom(Place(p.stack + [p.open], ""), SkipSlashes(rest), room, big);
    } else {
      CopiedText(p, rest[0]);
      GrowsToRoom(Place(p.stack, p.open + [rest[0]]), rest[1..], room, big);
    }
  }

  /** Without dots in the path, too little room leaves the first characters of the answer. */
  lemma DotlessIsCut(path: string, cwd: string, room: nat, big: nat)
    requires '.' !in path && |cwd| <= room <= big
    ensures Resolved(path, cwd, room) == Cut(Resolved(path, cwd, big), room)
  {
    hide Text, Resolve;
    BaseInRoom(path, cwd, room);
    var start := Base(path, cwd, room);
    if start == Base(path, cwd, big) {
      GrowsToRoom(start, path, room, big);
    } else {
      assert !IsAbsolute(path) && |cwd| == room < big;
      StopsAtOnce(start, path, room);
      Grows(PlaceOf(cwd + "/"), path, big);
    }
  }
}
