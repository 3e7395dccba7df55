/** `get_absolute_path`: resolving a path inside the buffer that receives it. */
module AbsolutePath {
  import opened Words

  const NUL := '\0'

  /** What the buffer holds: components, each closed by a slash, and one still open.  The
      first component of an absolute path is empty. */
  datatype Place = Place(stack: seq<string>, open: string)

  function Closed(stack: seq<string>): string {
    if |stack| == 0 then "" else Closed(stack[..|stack| - 1]) + stack[|stack| - 1] + "/"
  }

  function Text(p: Place): string { Closed(p.stack) + p.open }

  predicate NoSlash(s: string) { forall i :: 0 <= i < |s| ==> s[i] != '/' }

  predicate Clean(p: Place) { NoSlash(p.open) && forall i :: 0 <= i < |p.stack| ==> NoSlash(p.stack[i]) }

  function SkipSlashes(s: string): (t: string)
    ensures |t| <= |s| && (|t| > 0 ==> t[0] != '/')
  {
    if |s| > 0 && s[0] == '/' then SkipSlashes(s[1..]) else s
  }

  /** The root is never left. */
  function Pop(stack: seq<string>): seq<string> { if |stack| > 1 then stack[..|stack| - 1] else stack }

  /** Reads the path `rest` until it ends or the text has grown to `room`: a run of slashes closes
      the open component; right behind a slash, `../` drops a component and `./` drops itself. */
  function Resolve(p: Place, rest: string, room: nat): Place
    decreases |rest|
  {
    if rest == "" || |Text(p)| >= room then p
    else if rest[0] == '/' then Resolve(Place(p.stack + [p.open], ""), SkipSlashes(rest), room)
    else if p.open == "" && "../" <= rest then Resolve(Place(Pop(p.stack), ""), rest[3..], room)
    else if p.open == "" && "./" <= rest then Resolve(p, rest[2..], room)
    else Resolve(Place(p.stack, p.open + [rest[0]]), rest[1..], room)
  }

  // ---- Text and components ----

  lemma ClosedSnoc(stack: seq<string>, c: string)
    ensures Closed(stack + [c]) == Closed(stack) + c + "/"
  {
    assert (stack + [c])[..|stack|] == stack;
  }

  /** Closing the open component appends a slash. */
  lemma TextOfClose(p: Place)
    ensures Text(Place(p.stack + [p.open], "")) == Text(p) + "/"
  {
    ClosedSnoc(p.stack, p.open);
  }

  lemma EndsInSlash(stack: seq<string>)
    requires |stack| > 0
    ensures |Closed(stack)| > 0 && Closed(stack)[|Closed(stack)| - 1] == '/'
  {
  }

  /** The character before the cursor tells whether a component is open. */
  lemma BehindSlash(p: Place)
    requires Clean(p) && |Text(p)| > 0
    ensures Text(p)[|Text(p)| - 1] == '/' <==> p.open == ""
  {
    if p.open == "" {
      EndsInSlash(p.stack);
    }
  }

  /** Backing up from one slash to the one before drops one component. */
  lemma BackUp(stack: seq<string>, at: nat)
    requires |stack| > 1 && Clean(Place(stack, ""))
    ensures var shorter := Closed(stack[..|stack| - 1]);
      && 0 < |shorter| < |Closed(stack)| && shorter <= Closed(stack)
      && Closed(stack)[|shorter| - 1] == '/'
      && (|shorter| <= at < |Closed(stack)| - 1 ==> Closed(stack)[at] != '/')
  {
    EndsInSlash(stack[..|stack| - 1]);
  }

  lemma {:induction false} ClosedIsLong(stack: seq<string>)
    requires |stack| > 0
    ensures |Closed(stack)| >= |stack|
  {
    if |stack| > 1 {
      ClosedIsLong(stack[..|stack| - 1]);
    }
  }

  // ---- The C function ----

  /** The character of a C string at `i`; the terminator behind its end. */
  function At(s: string, i: nat): char { if i < |s| then s[i] else NUL }

  /** The loop that backs up to the previous slash. */
  method GoUp(result: array<char>, start: nat, ghost stack: seq<string>) returns (presult: nat)
    requires start <= result.Length && |stack| > 1 && Clean(Place(stack, "")) && result[..start] == Closed(stack)
    ensures presult < start && result[..presult] == Closed(stack[..|stack| - 1])
  {
    BackUp(stack, 0);
    ghost var shorter := Closed(stack[..|stack| - 1]);
    presult := start - 1;
    while result[presult - 1] != '/'
      invariant |shorter| <= presult < start
      decreases presult
    {
      presult := presult - 1;
      BackUp(stack, presult - 1);
      assert result[..start][|shorter| - 1] == '/';
    }
    BackUp(stack, presult - 1);
    assert result[..start][presult - 1] == '/';
    assert result[..presult] == result[..start][..presult];
  }

  /** The loop over a run of slashes. */
  method SkipRun(path: string, start: nat) returns (ppath: nat)
    requires start < |path| && path[start] == '/' && NUL !in path
    ensures start < ppath <= |path| && path[ppath..] == SkipSlashes(path[start..])
  {
    ppath := start + 1;
    assert path[start..][1..] == path[ppath..];
    while At(path, ppath) == '/'
      invariant start < ppath <= |path| && SkipSlashes(path[ppath..]) == SkipSlashes(path[start..])
      decreases |path| - ppath
    {
      assert path[ppath..][1..] == path[ppath + 1..];
      ppath := ppath + 1;
    }
  }

  lemma DotsAt(path: string, i: nat)
    requires i < |path| && NUL !in path
    ensures "../" <= path[i..] <==> At(path, i) == '.' && At(path, i + 1) == '.' && At(path, i + 2) == '/'
    ensures "./" <= path[i..] <==> At(path, i) == '.' && At(path, i + 1) == '/'
    ensures "../" <= path[i..] ==> path[i..][3..] == path[i + 3..]
    ensures "./" <= path[i..] ==> path[i..][2..] == path[i + 2..]
    ensures path[i..][0] == path[i] && path[i..][1..] == path[i + 1..]
  {
  }

  /** The cursor in the buffer, the cursor in the path, and the components between them. */
  ghost predicate Holds(result: array<char>, presult: nat, size: nat, path: string, ppath: nat, p: Place)
    reads result
  {
    && presult + size == result.Length && size >= 1 && ppath <= |path|
    && Clean(p) && result[..presult] == Text(p)
    && (presult == 0 ==> p == Place([], "") && (ppath == |path| || path[ppath] == '/'))
    && (presult > 0 ==> |p.stack| > 0 && p.stack[0] == "")
  }

  lemma ResolveSlash(p: Place, path: string, ppath: nat, next: nat, room: nat)
    requires ppath < next <= |path| && path[ppath] == '/' && path[next..] == SkipSlashes(path[ppath..])
        && |Text(p)| < room
    ensures Resolve(p, path[ppath..], room) == Resolve(Place(p.stack + [p.open], ""), path[next..], room)
  {
    hide Text, SkipSlashes;
  }

  lemma ResolveDots(p: Place, path: string, ppath: nat, room: nat)
    requires ppath < |path| && NUL !in path && path[ppath] == '.' && p.open == "" && |Text(p)| < room
    ensures At(path, ppath + 1) == '.' && At(path, ppath + 2) == '/' ==>
              Resolve(p, path[ppath..], room) == Resolve(Place(Pop(p.stack), ""), path[ppath + 3..], room)
    ensures At(path, ppath + 1) == '/' ==> Resolve(p, path[ppath..], room) == Resolve(p, path[ppath + 2..], room)
  {
    DotsAt(path, ppath);
    hide Text, SkipSlashes, Pop, At;
  }

  lemma ResolveCopy(p: Place, path: string, ppath: nat, room: nat)
    requires ppath < |path| && NUL !in path && path[ppath] != '/' && |Text(p)| < room
    requires p.open == "" && path[ppath] == '.' ==>
               !(At(path, ppath + 1) == '.' && At(path, ppath + 2) == '/') && At(path, ppath + 1) != '/'
    ensures Resolve(p, path[ppath..], room) == Resolve(Place(p.stack, p.open + [path[ppath]]), path[ppath + 1..], room)
  {
    DotsAt(path, ppath);
    hide Text, SkipSlashes, Pop, At;
  }

  /** Appends one character of the text. */
  method Put(result: array<char>, presult: nat, c: char)
    requires presult < result.Length
    modifies result
    ensures result[..presult + 1] == old(result[..presult]) + [c]
  {
    result[presult] := c;
  }

  /** `../` right behind a slash. */
  method Up(result: array<char>, presult: nat, size: nat, path: string, ppath: nat, ghost p: Place)
    returns (presult': nat, size': nat, ghost p': Place)
    requires Holds(result, presult, size, path, ppath, p) && p.open == "" && presult > 0 && ppath + 3 <= |path|
    ensures p' == Place(Pop(p.stack), "") && Holds(result, presult', size', path, ppath + 3, p')
  {
    presult', size', p' := presult, size, Place(Pop(p.stack), "");
    OnlyRoot(p);
    if presult - 1 != 0 {
      presult' := GoUp(result, presult, p.stack);
      size' := size + (presult - presult');
    }
  }

  lemma OpenTells(result: array<char>, presult: nat, size: nat, path: string, ppath: nat, p: Place)
    requires Holds(result, presult, size, path, ppath, p)
    ensures presult == |Text(p)| && (presult > 0 ==> (result[presult - 1] == '/' <==> p.open == ""))
  {
    if presult > 0 {
      BehindSlash(p);
      assert result[..presult][presult - 1] == result[presult - 1];
    }
  }

  lemma HoldsClosed(result: array<char>, presult: nat, size: nat, path: string, ppath: nat, p: Place)
    requires presult + size == result.Length && size >= 1 && presult > 0 && ppath <= |path| && Clean(p)
    requires result[..presult] == Text(p) + "/" && (|p.stack| > 0 ==> p.stack[0] == "")
        && (|p.stack| == 0 ==> p.open == "")
    ensures Holds(result, presult, size, path, ppath, Place(p.stack + [p.open], ""))
  {
    TextOfClose(p);
  }

  lemma HoldsOpen(result: array<char>, presult: nat, size: nat, path: string, ppath: nat, p: Place, c: char)
    requires presult + size == result.Length && size >= 1 && presult > 0 && ppath <= |path| && Clean(p) && c != '/'
    requires result[..presult] == Text(p) + [c] && |p.stack| > 0 && p.stack[0] == ""
    ensures Holds(result, presult, size, path, ppath, Place(p.stack, p.open + [c]))
  {
  }

  /** One turn of the loop: one case of `Resolve`.  What was written and what is left of the
      buffer always make up the whole of it. */
  method Step(result: array<char>, presult: nat, size: nat, path: string, ppath: nat, ghost p: Place)
    returns (presult': nat, size': nat, ppath': nat, ghost p': Place)
    requires Holds(result, presult, size, path, ppath, p) && NUL !in path && ppath < |path| && size > 1
    modifies result
    ensures Holds(result, presult', size', path, ppath', p') && ppath < ppath'
    ensures Resolve(p, path[ppath..], result.Length - 1) == Resolve(p', path[ppath'..], result.Length - 1)
  {
    hide Resolve, Text, Pop, SkipSlashes;
    ghost var room := result.Length - 1;
    presult', size', ppath', p' := presult, size, ppath, p;
    OpenTells(result, presult, size, path, ppath, p);
    if path[ppath] == '/' {
      ppath' := SkipRun(path, ppath);
      Put(result, presult, '/');
      presult', size' := presult + 1, size - 1;
      p' := Place(p.stack + [p.open], "");
      HoldsClosed(result, presult', size', path, ppath', p);
      ResolveSlash(p, path, ppath, ppath', room);
    } else if path[ppath] == '.' && At(path, ppath + 1) == '.' && At(path, ppath + 2) == '/' && result[presult - 1] == '/' {
      ResolveDots(p, path, ppath, room);
      presult', size', p' := Up(result, presult, size, path, ppath, p);
      ppath' := ppath + 3;
    } else if path[ppath] == '.' && At(path, ppath + 1) == '/' && result[presult - 1] == '/' {
      ResolveDots(p, path, ppath, room);
      ppath' := ppath + 2;
    } else {
      ResolveCopy(p, path, ppath, room);
      Put(result, presult, path[ppath]);
      presult', size', ppath' := presult + 1, size - 1, ppath + 1;
      p' := Place(p.stack, p.open + [path[ppath]]);
      HoldsOpen(result, presult', size', path, ppath', p, path[ppath]);
    }
  }

  /** The text is a single slash exactly when the root is the only component. */
  lemma OnlyRoot(p: Place)
    requires p.open == "" && |p.stack| > 0 && p.stack[0] == ""
    ensures |Text(p)| == 1 <==> |p.stack| == 1
  {
    ClosedIsLong(p.stack);
  }

  // ---- The whole function ----

  /** The components of a text. */
  function PlaceOf(s: string): (p: Place)
    ensures Text(p) == s && Clean(p)
    ensures |s| > 0 && s[0] == '/' ==> |p.stack| > 0 && p.stack[0] == ""
    ensures |s| > 0 && s[0] != '/' ==> (if |p.stack| > 0 then p.stack[0] else p.open) != ""
    decreases |s|
  {
    if |s| == 0 then Place([], "")
    else
      var p, c := PlaceOf(s[..|s| - 1]), s[|s| - 1];
      if c == '/' then
        TextOfClose(p);
        Place(p.stack + [p.open], "")
      else Place(p.stack, p.open + [c])
  }

  /** Where the resolution starts: nowhere for an absolute path, behind the working directory and
      a slash, if there is room for it, for any other. */
  function Base(path: string, cwd: string, room: nat): Place {
    if |path| > 0 && path[0] == '/' then Place([], "")
    else if |cwd| >= room then PlaceOf(cwd)
    else PlaceOf(cwd + "/")
  }

  /** The resolved path. */
  function Resolved(path: string, cwd: string, room: nat): string { Text(Resolve(Base(path, cwd, room), path, room)) }

  /** `getcwd` with this much room: the working directory or a failure. */
  predicate GoodCwd(cwd: Option<string>, size: nat) {
    cwd.Some? ==> |cwd.value| > 0 && cwd.value[0] == '/' && NUL !in cwd.value && |cwd.value| < size
  }

  /** Copies the working directory into the buffer. */
  method GetCwd(result: array<char>, cwd: string)
    requires |cwd| < result.Length
    modifies result
    ensures result[..|cwd|] == cwd
  {
    var i := 0;
    while i < |cwd|
      invariant 0 <= i <= |cwd| && result[..i] == cwd[..i]
    {
      result[i] := cwd[i];
      i := i + 1;
    }
  }

  /** `get_absolute_path`.  Failure is that of `getcwd`; otherwise the buffer holds the resolved
      path, cut to the room there is, and a terminator behind it. */
  method GetAbsolutePath(path: Option<string>, cwd: Option<string>, result: array<char>) returns (ok: bool, end: nat)
    requires result.Length > 0 && GoodCwd(cwd, result.Length) && (path.Some? ==> NUL !in path.value)
    modifies result
    ensures end < result.Length
    ensures path.None? ==> ok && end == 0
    ensures path.Some? ==> (ok <==> (path.value != "" && path.value[0] == '/') || cwd.Some?)
    ensures ok ==> result[end] == NUL
    ensures ok && path.Some? ==>
              result[..end] == Resolved(path.value, if cwd.Some? then cwd.value else "", result.Length - 1)
  {
    hide Resolve;
    result[0] := NUL;
    if path.None? {
      return true, 0;
    }
    var s := path.value;
    var ppath: nat, presult: nat, size: nat := 0, 0, result.Length;
    ghost var room := result.Length - 1;
    ghost var start := Place([], "");
    if At(s, 0) != '/' {
      if cwd.None? {
        return false, 0;
      }
      presult, size, start := StartRelative(result, cwd.value, s);
    }
    ghost var p := start;
    assert s[0..] == s;
    while At(s, ppath) != NUL && size > 1
      invariant Holds(result, presult, size, s, ppath, p)
      invariant Resolve(p, s[ppath..], room) == Resolve(start, s, room)
      decreases |s| - ppath
    {
      presult, size, ppath, p := Step(result, presult, size, s, ppath, p);
    }
    Stopped(result, presult, size, s, ppath, p, room);
    ghost var text := result[..presult];
    result[presult] := NUL;
    assert result[..presult] == text;
    return true, presult;
  }

  method StartRelative(result: array<char>, cwd: string, s: string) returns (presult: nat, size: nat, ghost start: Place)
    requires result.Length > 0 && GoodCwd(Some(cwd), result.Length) && At(s, 0) != '/'
    modifies result
    ensures start == Base(s, cwd, result.Length - 1) && Holds(result, presult, size, s, 0, start)
  {
    GetCwd(result, cwd);
    presult, size := |cwd|, result.Length - |cwd|;
    if size > 1 {
      Put(result, presult, '/');
      presult, size := presult + 1, size - 1;
    }
    start := Base(s, cwd, result.Length - 1);
  }

  lemma Stopped(result: array<char>, presult: nat, size: nat, s: string, ppath: nat, p: Place, room: nat)
    requires Holds(result, presult, size, s, ppath, p) && room + 1 == result.Length && NUL !in s
    requires At(s, ppath) == NUL || size <= 1
    ensures Resolve(p, s[ppath..], room) == p && result[..presult] == Text(p)
  {
    assert ppath < |s| ==> s[ppath] in s;
  }
}
