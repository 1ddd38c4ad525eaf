/** Which paths an agent may name (`normalize` and `resolve_in_workspace` in
    `src/agent/acp.rs`): resolved on the text alone, then required to lie in the workspace. */
module WorkspacePaths {
  import opened Wrappers

  /** What `Path::components` yields; a root only ever comes first. */
  datatype Component = Root | Cur | Up | Name(name: string)

  type Path = p: seq<Component> | RootFirst(p) witness []

  predicate RootFirst(p: seq<Component>) {
    forall i :: 0 < i < |p| ==> !p[i].Root?
  }

  /** `PathBuf::pop` does nothing to a root or to an empty path. */
  function Pop(out: seq<Component>): seq<Component> {
    if out != [] && out[|out| - 1].Name? then out[..|out| - 1] else out
  }

  function Push(out: seq<Component>, c: Component): seq<Component> {
    match c
    case Root => [Root]
    case Cur => out
    case Up => Pop(out)
    case Name(_) => out + [c]
  }

  /** `out` after the components of `p`. */
  function Walk(out: seq<Component>, p: seq<Component>): seq<Component> {
    if p == [] then out else Push(Walk(out, p[..|p| - 1]), p[|p| - 1])
  }

  method Normalize(path: Path) returns (out: seq<Component>)
    ensures out == Walk([], path)
  {
    out := [];
    for i := 0 to |path|
      invariant out == Walk([], path[..i])
    {
      assert path[..i + 1][..i] == path[..i];
      match path[i] {
        case Up =>
          if out != [] && out[|out| - 1].Name? {
            out := out[..|out| - 1];
          }
        case Cur =>
        case Root =>
          out := [Root];
        case Name(_) =>
          out := out + [path[i]];
      }
    }
    assert path[..|path|] == path;
  }

  predicate IsAbsolute(p: seq<Component>) {
    p != [] && p[0].Root?
  }

  function Joined(workspace: Path, raw: Path): Path {
    if IsAbsolute(raw) then raw else workspace + raw
  }

  datatype PathError = Missing | Escapes | NotCanonical

  /** The path an agent may use. `canonical` resolves links on disk, and may refuse. */
  method Resolve(workspace: Path, raw: Option<Path>, canonical: seq<Component> -> Option<seq<Component>>)
    returns (r: Result<seq<Component>, PathError>)
    ensures raw.None? ==> r == Err(Missing)
    ensures raw.Some? ==>
      var normal := Walk([], Joined(workspace, raw.value));
      r == if !(Walk([], workspace) <= normal) then Err(Escapes)
           else if canonical(normal).Some? then Ok(canonical(normal).value) else Err(NotCanonical)
  {
    if raw.None? {
      return Err(Missing);
    }
    var normal := Normalize(Joined(workspace, raw.value));
    var root := Normalize(workspace);
    if !(root <= normal) {
      return Err(Escapes);
    }
    var real_ := canonical(normal);
    return if real_.Some? then Ok(real_.value) else Err(NotCanonical);
  }

  // ---- A normal form for relative paths --------------------------------------------

  /** So many steps up, then these names down. */
  datatype Trip = Trip(ups: nat, names: seq<Component>)

  function TripOf(p: seq<Component>): (t: Trip)
    ensures forall c :: c in t.names ==> c.Name?
  {
    if p == [] then Trip(0, [])
    else
      var t, last := TripOf(p[..|p| - 1]), p[|p| - 1];
      match last
      case Name(_) => Trip(t.ups, t.names + [last])
      case Up => if t.names == [] then Trip(t.ups + 1, []) else Trip(t.ups, t.names[..|t.names| - 1])
      case _ => t
  }

  lemma {:induction false} TripsContinue(a: seq<Component>, b: seq<Component>, more: seq<Component>)
    requires TripOf(a) == TripOf(b)
    ensures TripOf(a + more) == TripOf(b + more)
  {
    if more == [] {
      assert a + more == a && b + more == b;
    } else {
      var front := more[..|more| - 1];
      TripsContinue(a, b, front);
      assert (a + more)[..|a + more| - 1] == a + front && (b + more)[..|b + more| - 1] == b + front;
    }
  }

  /** What a trip is, said without walking it: `.` is nothing, a name and the `..` after it
      are nothing, and steps up followed by names are just that. */
  lemma TripsReduce(before: seq<Component>, name: Component, after: seq<Component>, ups: nat, names: seq<Component>)
    requires name.Name? && forall c :: c in names ==> c.Name?
    ensures TripOf(before + [Cur] + after) == TripOf(before + after)
    ensures TripOf(before + [name, Up] + after) == TripOf(before + after)
    ensures TripOf(seq(ups, i => Up) + names) == Trip(ups, names)
  {
    assert (before + [Cur])[..|before|] == before;
    TripsContinue(before + [Cur], before, after);
    assert (before + [name, Up])[..|before| + 1] == before + [name] && (before + [name])[..|before|] == before;
    assert TripOf(before + [name]).names[..|TripOf(before).names|] == TripOf(before).names;
    TripsContinue(before + [name, Up], before, after);
    UpsThenNames(ups, names);
  }

  lemma {:induction false} UpsThenNames(ups: nat, names: seq<Component>)
    requires forall c :: c in names ==> c.Name?
    ensures TripOf(seq(ups, i => Up) + names) == Trip(ups, names)
    decreases ups + |names|
  {
    var p := seq(ups, i => Up) + names;
    if names != [] {
      var front := names[..|names| - 1];
      UpsThenNames(ups, front);
      assert names == front + [names[|names| - 1]] && names[|names| - 1] in names;
      assert p[..|p| - 1] == seq(ups, i => Up) + front;
    } else if ups > 0 {
      UpsThenNames(ups - 1, []);
      assert p[..|p| - 1] == seq(ups - 1, i => Up) + [];
    }
  }

  /** A resolved path: an optional root, then names. */
  predicate Resolved(p: seq<Component>) {
    forall i :: 0 <= i < |p| ==> p[i].Name? || (i == 0 && p[i].Root?)
  }

  function Depth(p: seq<Component>): (d: nat)
    ensures d <= |p|
  {
    if IsAbsolute(p) then |p| - 1 else |p|
  }

  /** `base` without its last `ups` names, stopping at the root. */
  function Climb(base: seq<Component>, ups: nat): seq<Component> {
    base[..|base| - (if ups < Depth(base) then ups else Depth(base))]
  }

  lemma PopClimbs(base: seq<Component>, ups: nat)
    requires Resolved(base)
    ensures Pop(Climb(base, ups)) == Climb(base, ups + 1)
  {
    var c := Climb(base, ups);
    if ups < Depth(base) {
      assert c != [] && c[|c| - 1] == base[|base| - ups - 1];
      assert base[|base| - ups - 1].Name?;
    }
  }

  /** Walking a relative path climbs from the base, then descends. */
  lemma {:induction false} WalkIsTrip(base: seq<Component>, p: seq<Component>)
    requires Resolved(base) && forall c :: c in p ==> !c.Root?
    ensures Walk(base, p) == Climb(base, TripOf(p).ups) + TripOf(p).names
  {
    if p == [] {
      assert Climb(base, 0) + [] == base;
    } else {
      var front, last := p[..|p| - 1], p[|p| - 1];
      WalkIsTrip(base, front);
      hide Climb, Walk, TripOf;
      TripStep(base, p, TripOf(front));
    }
  }

  lemma TripStep(base: seq<Component>, p: seq<Component>, t: Trip)
    requires Resolved(base) && p != [] && !p[|p| - 1].Root? && t == TripOf(p[..|p| - 1])
    requires Walk(base, p[..|p| - 1]) == Climb(base, t.ups) + t.names
    ensures Walk(base, p) == Climb(base, TripOf(p).ups) + TripOf(p).names
  {
    hide Climb, Resolved, Pop;
    match p[|p| - 1]
    case Cur =>
    case Name(_) => assert Climb(base, t.ups) + t.names + [p[|p| - 1]] == Climb(base, t.ups) + (t.names + [p[|p| - 1]]);
    case Up => UpStep(base, t);
  }

  lemma UpStep(base: seq<Component>, t: Trip)
    requires Resolved(base) && forall c :: c in t.names ==> c.Name?
    ensures t.names == [] ==> Pop(Climb(base, t.ups) + t.names) == Climb(base, t.ups + 1) + []
    ensures t.names != [] ==> Pop(Climb(base, t.ups) + t.names) == Climb(base, t.ups) + t.names[..|t.names| - 1]
  {
    hide Climb, Resolved;
    var kept := Climb(base, t.ups);
    if t.names == [] {
      assert kept + t.names == kept;
      PopClimbs(base, t.ups);
      assert Climb(base, t.ups + 1) + [] == Climb(base, t.ups + 1);
    } else {
      assert t.names[|t.names| - 1] in t.names;
      assert (kept + t.names)[..|kept + t.names| - 1] == kept + t.names[..|t.names| - 1];
    }
  }

  lemma {:induction false} WalkIsResolved(base: seq<Component>, p: Path)
    requires Resolved(base) && (p != [] && p[0].Root? ==> base == [])
    ensures Resolved(Walk(base, p))
  {
    if p != [] {
      WalkIsResolved(base, p[..|p| - 1]);
    }
  }

  lemma {:induction false} WalkTwice(base: seq<Component>, p: seq<Component>, q: seq<Component>)
    ensures Walk(base, p + q) == Walk(Walk(base, p), q)
  {
    if q == [] {
      assert p + q == p;
    } else {
      assert (p + q)[..|p + q| - 1] == p + q[..|q| - 1];
      WalkTwice(base, p, q[..|q| - 1]);
    }
  }

  /** Normalising leaves no `.` and no `..`, and a second time changes nothing. */
  lemma NormalizeIsIdempotent(p: Path)
    ensures Resolved(Walk([], p)) && Walk([], Walk([], p)) == Walk([], p)
  {
    WalkIsResolved([], p);
    WalkResolved(Walk([], p));
  }

  lemma {:induction false} WalkResolved(p: seq<Component>)
    requires Resolved(p)
    ensures Walk([], p) == p
  {
    if p != [] {
      var front, last := p[..|p| - 1], p[|p| - 1];
      WalkResolved(front);
      assert p == front + [last] && (last.Root? ==> front == []);
    }
  }

  /** A relative path stays in the workspace exactly when what it climbs out of the
      workspace it descends back into, name by name; every other one is refused. */
  lemma RelativeStaysExactlyWhen(workspace: Path, raw: Path)
    requires !IsAbsolute(raw)
    ensures var root, trip := Walk([], workspace), TripOf(raw);
            && Walk([], Joined(workspace, raw)) == Climb(root, trip.ups) + trip.names
            && (root <= Walk([], Joined(workspace, raw)) <==> root[|Climb(root, trip.ups)|..] <= trip.names)
  {
    hide Walk, TripOf, Resolved;
    var root, trip := Walk([], workspace), TripOf(raw);
    assert forall c :: c in raw ==> !c.Root?;
    WalkTwice([], workspace, raw);
    WalkIsResolved([], workspace);
    WalkIsTrip(root, raw);
    hide Climb;
    var kept := Climb(root, trip.ups);
    ClimbIsPrefix(root, trip.ups);
    PrefixAfter(kept, root[|kept|..], trip.names);
  }

  lemma ClimbIsPrefix(base: seq<Component>, ups: nat)
    ensures |Climb(base, ups)| <= |base| && base == Climb(base, ups) + base[|Climb(base, ups)|..]
  {
  }

  lemma PrefixAfter(a: seq<Component>, b: seq<Component>, c: seq<Component>)
    ensures a + b <= a + c <==> b <= c
  {
    if a + b <= a + c {
      assert forall i :: 0 <= i < |b| ==> b[i] == (a + b)[|a| + i] == (a + c)[|a| + i] == c[i];
    }
  }

  /** An absolute path is in the workspace exactly when the names it descends to, climbs
      stopping at the root, continue the workspace's own. */
  lemma AbsoluteStaysExactlyWhen(workspace: Path, raw: Path)
    requires IsAbsolute(raw)
    ensures Walk([], Joined(workspace, raw)) == [Root] + TripOf(raw[1..]).names
    ensures Walk([], workspace) <= Walk([], Joined(workspace, raw)) <==>
            Walk([], workspace) <= [Root] + TripOf(raw[1..]).names
  {
    assert raw == [Root] + raw[1..];
    WalkTwice([], [Root], raw[1..]);
    assert Walk([], [Root]) == [Root] by { assert [Root][..0] == []; }
    WalkIsTrip([Root], raw[1..]);
  }

  /** So a path that never climbs is always allowed, and lands at that place inside. */
  lemma PlainPathsLandInside(workspace: Path, raw: Path)
    requires forall c :: c in raw ==> c.Name?
    ensures Walk([], Joined(workspace, raw)) == Walk([], workspace) + raw
  {
    hide Walk, TripOf, Climb;
    assert raw != [] ==> raw[0] in raw;
    RelativeStaysExactlyWhen(workspace, raw);
    PlainTrip(raw);
    NoClimb(Walk([], workspace));
  }

  lemma NoClimb(base: seq<Component>)
    ensures Climb(base, 0) == base
  {
  }

  lemma {:induction false} PlainTrip(p: seq<Component>)
    requires forall c :: c in p ==> c.Name?
    ensures TripOf(p) == Trip(0, p)
  {
    if p != [] {
      assert p == p[..|p| - 1] + [p[|p| - 1]];
      assert p[|p| - 1] in p;
      PlainTrip(p[..|p| - 1]);
    }
  }
}
