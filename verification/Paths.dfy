/** Entry paths: components under Linux path semantics, validation, and confinement. */
module Paths {
  import opened Base
  import opened Errors

  const SLASH: byte := 47
  const DOT: Bytes := [46]
  const DOT_DOT: Bytes := [46, 46]

  datatype Component = RootDir | CurDir | ParentDir | Normal(name: Bytes)

  /** The pieces of `s` between slashes, empty ones included. */
  function Segments(s: Bytes): (r: seq<Bytes>)
    ensures r != []
  {
    if s == [] then [[]]
    else
      var rest := Segments(s[1..]);
      if s[0] == SLASH then [[]] + rest else [[s[0]] + rest[0]] + rest[1..]
  }

  predicate Absolute(path: Bytes) {
    path != [] && path[0] == SLASH
  }

  /** Empty segments vanish, and so do dots, except a leading one on a relative path. */
  function FromSegments(segments: seq<Bytes>, leading: bool): seq<Component> {
    if segments == [] then []
    else
      var rest := FromSegments(segments[1..], false);
      var s := segments[0];
      if s == [] then rest
      else if s == DOT then if leading then [CurDir] + rest else rest
      else if s == DOT_DOT then [ParentDir] + rest
      else [Normal(s)] + rest
  }

  /** `Path::components` on a Unix path. */
  function Components(path: Bytes): seq<Component> {
    if Absolute(path) then [RootDir] + FromSegments(Segments(path[1..]), false)
    else FromSegments(Segments(path), true)
  }

  /** `reject_unsafe`. */
  function RejectUnsafe(c: Component): Option<Error> {
    match c
    case RootDir => Some(AbsolutePath)
    case ParentDir => Some(ParentEscape)
    case CurDir => None
    case Normal(_) => None
  }

  /** The first complaint about any component, in order. */
  function RejectFirst(cs: seq<Component>): Option<Error> {
    if cs == [] then None
    else
      match RejectUnsafe(cs[0])
      case Some(e) => Some(e)
      case None => RejectFirst(cs[1..])
  }

  datatype SafePath = SafePath(bytes: Bytes)

  /** `SafePath::new`. */
  function New(path: Bytes): Result<SafePath, Error> {
    if path == [] then Err(EmptyPath)
    else if 0 in path then Err(NulPath)
    else
      match RejectFirst(Components(path))
      case Some(e) => Err(e)
      case None => Ok(SafePath(path))
  }

  lemma {:induction false} ParentIffDotDot(segments: seq<Bytes>, leading: bool)
    ensures ParentDir in FromSegments(segments, leading) <==> DOT_DOT in segments
    ensures RootDir !in FromSegments(segments, leading)
  {
    if segments != [] {
      assert segments == [segments[0]] + segments[1..];
      ParentIffDotDot(segments[1..], false);
    }
  }

  lemma {:induction false} RejectsIffUnsafe(cs: seq<Component>)
    requires RootDir !in cs
    ensures RejectFirst(cs) == if ParentDir in cs then Some(ParentEscape) else None
  {
    if cs != [] {
      assert cs == [cs[0]] + cs[1..];
      RejectsIffUnsafe(cs[1..]);
    }
  }

  /**
   A path is accepted exactly when it is non-empty, free of NUL, relative and without a
   `..` between slashes; otherwise the first of these it violates names the error.
   */
  lemma NewIff(path: Bytes)
    ensures New(path) ==
      if path == [] then Err(EmptyPath)
      else if 0 in path then Err(NulPath)
      else if path[0] == SLASH then Err(AbsolutePath)
      else if DOT_DOT in Segments(path) then Err(ParentEscape)
      else Ok(SafePath(path))
  {
    if !Absolute(path) {
      ParentIffDotDot(Segments(path), true);
      RejectsIffUnsafe(Components(path));
    }
  }

  /** Where components lead from the directory `at`, as names below the file-system root. */
  function Walk(at: seq<Bytes>, cs: seq<Component>): seq<Bytes> {
    if cs == [] then at
    else
      var front := Walk(at, cs[..|cs| - 1]);
      match cs[|cs| - 1]
      case RootDir => []
      case CurDir => front
      case ParentDir => if front == [] then [] else front[..|front| - 1]
      case Normal(name) => front + [name]
  }

  // ----- What the components are, on the bytes of the path -----

  /** The pieces put together again, with the byte 47 between them. */
  function Join(pieces: seq<Bytes>): Bytes
    requires pieces != []
  {
    if |pieces| == 1 then pieces[0] else pieces[0] + [47] + Join(pieces[1..])
  }

  /** The segments are the pieces of the path between its slashes: joined by slashes they give it back. */
  lemma {:induction false} SegmentsJoin(s: Bytes)
    ensures Join(Segments(s)) == s
    ensures forall piece :: piece in Segments(s) ==> 47 !in piece
  {
    if s != [] {
      var rest := Segments(s[1..]);
      SegmentsJoin(s[1..]);
      assert s == [s[0]] + s[1..];
      if s[0] == 47 {
        JoinEmpty(rest);
      } else {
        JoinLonger(s[0], rest);
        assert forall piece :: piece in rest[1..] ==> piece in rest;
      }
      hide Join;
    }
  }

  lemma JoinEmpty(rest: seq<Bytes>)
    requires rest != []
    ensures Join([[]] + rest) == [47] + Join(rest)
  {
    assert ([[]] + rest)[1..] == rest;
  }

  lemma JoinLonger(b: byte, rest: seq<Bytes>)
    requires rest != []
    ensures Join([[b] + rest[0]] + rest[1..]) == [b] + Join(rest)
  {
    var longer := [[b] + rest[0]] + rest[1..];
    assert |rest| > 1 ==> longer[1..] == rest[1..];
    var behind := if |rest| > 1 then [47] + Join(rest[1..]) else [];
    assert Join(rest) == rest[0] + behind && Join(longer) == ([b] + rest[0]) + behind by {
      if |rest| > 1 {
        Associate(rest[0], [47], Join(rest[1..]));
        Associate([b] + rest[0], [47], Join(rest[1..]));
      }
    }
    hide Join;
    Associate([b], rest[0], behind);
  }

  lemma Associate(a: Bytes, b: Bytes, c: Bytes)
    ensures a + b + c == a + (b + c)
  {
  }

  /** The index of the first slash, or the length. */
  function FirstSlash(s: Bytes): (k: nat)
    ensures k <= |s| && (forall i :: 0 <= i < k ==> s[i] != 47) && (k < |s| ==> s[k] == 47)
  {
    if s == [] || s[0] == 47 then 0 else FirstSlash(s[1..]) + 1
  }

  lemma {:induction false} SegmentsFrom(s: Bytes)
    ensures var k := FirstSlash(s);
      Segments(s) == if k < |s| then [s[..k]] + Segments(s[k + 1..]) else [s]
  {
    if s != [] && s[0] != 47 {
      SegmentsFrom(s[1..]);
      var k := FirstSlash(s[1..]);
      assert s[1..][k..] == s[k + 1..];
      assert s[..k + 1] == [s[0]] + s[1..][..k];
      if k < |s| - 1 {
        assert s[1..][k + 1..] == s[k + 2..];
      } else {
        assert [s[0]] + s[1..] == s;
      }
    }
  }

  /** Two dots stand at `i`, between slashes or the ends of the path. */
  predicate DotsAt(s: Bytes, i: nat) {
    && i + 2 <= |s| && s[i] == 46 && s[i + 1] == 46
    && (i == 0 || s[i - 1] == 47) && (i + 2 == |s| || s[i + 2] == 47)
  }

  lemma {:induction false} DotDotIffDots(s: Bytes)
    ensures DOT_DOT in Segments(s) <==> exists i :: DotsAt(s, i)
    decreases |s|
  {
    var k := FirstSlash(s);
    SegmentsFrom(s);
    DotsInFront(s);
    hide Segments, DotsAt;
    if k < |s| {
      DotDotIffDots(s[k + 1..]);
      DotsInRest(s, s[k + 1..]);
    } else {
      assert s[..k] == s;
      forall i: nat | DotsAt(s, i)
        ensures i == 0
      {
        if i > 0 { DotsBehind(s, i); }
      }
    }
  }

  /** Two dots stand behind the first slash exactly when they stand somewhere but at the start. */
  lemma DotsInRest(s: Bytes, rest: Bytes)
    requires FirstSlash(s) < |s| && rest == s[FirstSlash(s) + 1..]
    ensures (exists j: nat :: DotsAt(rest, j)) <==> exists i: nat :: i > 0 && DotsAt(s, i)
  {
    hide DotsAt;
    var k := FirstSlash(s);
    if j: nat :| DotsAt(rest, j) {
      DotsShift(s, k, rest, j);
      assert DotsAt(s, j + (k + 1));
    }
    if i: nat :| i > 0 && DotsAt(s, i) {
      DotsBehind(s, i);
    }
  }

  lemma DotsShift(s: Bytes, k: nat, rest: Bytes, j: nat)
    requires k < |s| && s[k] == 47 && rest == s[k + 1..] && DotsAt(rest, j)
    ensures DotsAt(s, j + (k + 1))
  {
    var i := j + (k + 1);
    assert rest[j] == s[i] && rest[j + 1] == s[i + 1];
    if j > 0 { assert rest[j - 1] == s[i - 1]; }
    if j + 2 < |rest| { assert rest[j + 2] == s[i + 2]; }
  }

  /** The first segment is two dots exactly when two dots stand at the start. */
  lemma DotsInFront(s: Bytes)
    ensures s[..FirstSlash(s)] == DOT_DOT <==> DotsAt(s, 0)
  {
    var k := FirstSlash(s);
    if DotsAt(s, 0) {
      assert k == 2;
    }
  }

  /** Dots behind the start stand behind the first slash. */
  lemma DotsBehind(s: Bytes, i: nat)
    requires i > 0 && DotsAt(s, i)
    ensures var k := FirstSlash(s); k < i && k < |s| && DotsAt(s[k + 1..], i - (k + 1))
  {
    assert FirstSlash(s) != i;
  }

  /**
   `SafePath::new` on bytes. With 47 the slash and 46 the dot, a path is refused as empty,
   for a zero byte, for a leading slash, or, apart from those, exactly when two dots stand
   somewhere in it between slashes or its ends.
   */
  lemma NewInBytes(path: Bytes)
    ensures New(path) == Err(EmptyPath) <==> |path| == 0
    ensures New(path) == Err(NulPath) <==> exists i :: 0 <= i < |path| && path[i] == 0
    ensures New(path) == Err(AbsolutePath) <==> |path| > 0 && 0 !in path && path[0] == 47
    ensures New(path) == Err(ParentEscape) <==>
      (&& |path| > 0 && 0 !in path && path[0] != 47
       && exists i: nat {:trigger path[i]} ::
            && i + 2 <= |path| && path[i] == 46 && path[i + 1] == 46
            && (i == 0 || path[i - 1] == 47) && (i + 2 == |path| || path[i + 2] == 47))
    ensures New(path).Ok? ==> New(path).value.bytes == path
    ensures New(path).Err? ==> New(path).error in {EmptyPath, NulPath, AbsolutePath, ParentEscape}
  {
    NewIff(path);
    DotDotIffDots(path);
    hide Segments;
    assert forall i: nat {:trigger path[i]} :: i + 2 <= |path| ==>
      (DotsAt(path, i) <==>
        (&& path[i] == 46 && path[i + 1] == 46
         && (i == 0 || path[i - 1] == 47) && (i + 2 == |path| || path[i + 2] == 47)));
  }

  /** A path without a dot, a zero byte and a leading slash is safe. */
  lemma Undotted(path: Bytes)
    requires path != [] && path[0] != 47 && 0 !in path && 46 !in path
    ensures New(path) == Ok(SafePath(path))
  {
    NewInBytes(path);
    hide New;
    assert New(path) != Err(ParentEscape);
  }

  /** The segments that name something: neither empty nor a dot. */
  function Names(segments: seq<Bytes>): seq<Bytes> {
    if segments == [] then []
    else (if segments[0] == [] || segments[0] == [46] then [] else [segments[0]]) + Names(segments[1..])
  }

  lemma {:induction false} WalkAppends(at: seq<Bytes>, cs: seq<Component>, ds: seq<Component>)
    ensures Walk(at, cs + ds) == Walk(Walk(at, cs), ds)
    decreases |ds|
  {
    if ds == [] {
      assert cs + ds == cs;
    } else {
      var front := ds[..|ds| - 1];
      assert (cs + ds)[..|cs + ds| - 1] == cs + front;
      WalkAppends(at, cs, front);
    }
  }

  lemma {:induction false} WalkNames(at: seq<Bytes>, segments: seq<Bytes>, leading: bool)
    requires DOT_DOT !in segments
    ensures Walk(at, FromSegments(segments, leading)) == at + Names(segments)
    decreases |segments|
  {
    hide Walk;
    if segments == [] {
      WalkOne(at, []);
    } else {
      var s, rest := segments[0], FromSegments(segments[1..], false);
      assert s in segments && DOT_DOT !in segments[1..];
      var here := if s == [] || s == DOT then at else at + [s];
      var head := if s == [] then [] else if s == DOT then if leading then [CurDir] else [] else [Normal(s)];
      assert FromSegments(segments, leading) == head + rest;
      assert at + Names(segments) == here + Names(segments[1..]);
      hide FromSegments, Names;
      WalkOne(at, s);
      WalkAppends(at, head, rest);
      WalkNames(here, segments[1..], false);
    }
  }

  lemma WalkOne(at: seq<Bytes>, name: Bytes)
    ensures Walk(at, []) == at && Walk(at, [CurDir]) == at && Walk(at, [Normal(name)]) == at + [name]
  {
    assert [CurDir][..0] == [] && [Normal(name)][..0] == [];
  }

  lemma {:induction false} NamesAreSegments(segments: seq<Bytes>)
    ensures forall name :: name in Names(segments) <==> name in segments && name != [] && name != [46]
  {
    if segments != [] {
      assert segments == [segments[0]] + segments[1..];
      NamesAreSegments(segments[1..]);
    }
  }

  /**
   Where an accepted path leads: from any directory, through the segments between its
   slashes, in order, leaving out empty ones and single dots. None of the names it adds
   holds a slash, and none is a dot or two dots.
   */
  lemma LeadsTo(path: Bytes, root: seq<Bytes>)
    requires New(path).Ok?
    ensures Walk(root, Components(path)) == root + Names(Segments(path))
    ensures forall name :: name in Names(Segments(path)) ==>
      name != [] && 47 !in name && name != [46] && name != [46, 46]
  {
    NewIff(path);
    WalkNames(root, Segments(path), true);
    NamesAreSegments(Segments(path));
    SegmentsJoin(path);
  }

  lemma {:induction false} SafeComponentsDescend(root: seq<Bytes>, cs: seq<Component>)
    requires RootDir !in cs && ParentDir !in cs
    ensures root <= Walk(root, cs)
    ensures forall i :: |root| <= i < |Walk(root, cs)| ==> Normal(Walk(root, cs)[i]) in cs
  {
    if cs != [] {
      SafeComponentsDescend(root, cs[..|cs| - 1]);
      assert cs == cs[..|cs| - 1] + [cs[|cs| - 1]];
    }
  }

  lemma {:induction false} NormalsAreSegments(segments: seq<Bytes>, leading: bool)
    ensures forall name :: Normal(name) in FromSegments(segments, leading) ==>
      name in segments && name != [] && name != [46] && name != [46, 46]
  {
    if segments != [] {
      assert segments == [segments[0]] + segments[1..];
      NormalsAreSegments(segments[1..], false);
    }
  }

  /**
   Following an accepted path from any directory never leaves that directory, at any step, and
   every name it goes down by is a proper one: not empty, no dot, no two dots, without a slash.
   */
  lemma Confined(path: Bytes, root: seq<Bytes>, steps: nat)
    requires New(path).Ok? && steps <= |Components(path)|
    ensures var place := Walk(root, Components(path)[..steps]);
      && root <= place
      && forall i :: |root| <= i < |place| ==>
        place[i] != [] && place[i] != [46] && place[i] != [46, 46] && 47 !in place[i]
  {
    NewIff(path);
    ParentIffDotDot(Segments(path), true);
    SafeComponentsDescend(root, Components(path)[..steps]);
    NormalsAreSegments(Segments(path), true);
    SegmentsJoin(path);
    hide New, Walk, Segments;
  }
}
