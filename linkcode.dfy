/**
 The link composer of the documentation build (`linkcode_resolve`): for a documented
 Python symbol it walks the dotted name from its module, checks that every object on
 the way is a class, a method or a non-builtin function, and builds a GitHub URL from
 the object's source file and line range.

 Python's runtime introspection is replaced by data: `sys.modules` is a map from
 module names to objects, objects live in a heap and carry what `inspect` would report.
 */
module Linkcode {
  import opened Wrappers
  import opened Text

  /** What `inspect.isclass`, `ismethod`, `isfunction` and `isbuiltin` say of an object. */
  datatype Inspect = Inspect(isClass: bool, isMethod: bool, isFunction: bool, isBuiltin: bool)

  /** `inspect.getsourcelines(obj)`: the source lines and the number of the first one. */
  datatype SourceLines = SourceLines(lines: seq<string>, start: nat)

  /** `inspect.getsourcefile(obj)`: a path, None, or a TypeError for objects defined in native code. */
  datatype SourceFile = Path(path: string) | NoPath | Native

  type ObjRef = nat

  datatype PyObject = PyObject(
    kind: Inspect,
    attrs: map<string, ObjRef>,          // what `getattr` finds
    sourceFile: SourceFile,              // `inspect.getsourcefile(obj)`
    sourceLines: Option<SourceLines>)    // `inspect.getsourcelines(obj)`, None when it raises OSError

  type Heap = map<ObjRef, PyObject>

  /** Every attribute refers to an object of the heap. */
  ghost predicate Closed(h: Heap) {
    forall o, name | o in h && name in h[o].attrs :: h[o].attrs[name] in h
  }

  /** Every loaded module is an object of the heap. */
  ghost predicate Loaded(modules: map<string, ObjRef>, h: Heap) {
    forall m | m in modules :: modules[m] in h
  }

  /** The `info` dictionary Sphinx passes in. */
  datatype Info = Info(moduleName: string, fullname: string)

  /** The exceptions `linkcode_resolve` lets escape. */
  datatype LinkError =
    | AttributeError(owner: ObjRef, name: string)  // `getattr` on a missing attribute
    | TypeError                                     // `getsourcefile` on a natively defined object
    | NotRelative(path: string, root: string)       // `relative_to` on a path outside the root

  const GithubTree := "https://github.com/Qiskit/qiskit/tree/"

  /**
   The check on each object of the walk. Python binds `and` tighter than `or`, so
   the source's unparenthesised condition groups as written here.
   */
  predicate IsValidCodeObject(k: Inspect) {
    k.isClass || k.isMethod || (k.isFunction && !k.isBuiltin)
  }

  // ---------------------------------------------------------------------------
  // Walking the dotted name

  /** How the walk over the dotted name ends. */
  datatype Walked =
    | Reached(obj: ObjRef)                   // every step gave a linkable object
    | Unlinkable(obj: ObjRef)                // a step gave an object that is not linkable
    | Missing(owner: ObjRef, name: string)   // a step found no such attribute

  /** The loop of `linkcode_resolve` as a fold: step, check, stop early. */
  function Walk(h: Heap, obj: ObjRef, parts: seq<string>): (w: Walked)
    requires Closed(h) && obj in h
    ensures w.Reached? ==> w.obj in h && (IsValidCodeObject(h[w.obj].kind) || (parts == [] && w.obj == obj))
    decreases |parts|
  {
    if parts == [] then Reached(obj)
    else if parts[0] !in h[obj].attrs then Missing(obj, parts[0])
    else
      var next := h[obj].attrs[parts[0]];
      if !IsValidCodeObject(h[next].kind) then Unlinkable(next)
      else Walk(h, next, parts[1..])
  }

  /** Plain attribute access along a path, with no check on the objects passed. */
  function Lookup(h: Heap, obj: ObjRef, parts: seq<string>): (r: Option<ObjRef>)
    requires Closed(h) && obj in h
    ensures r.Some? ==> r.value in h
    decreases |parts|
  {
    if parts == [] then Some(obj)
    else if parts[0] !in h[obj].attrs then None
    else Lookup(h, h[obj].attrs[parts[0]], parts[1..])
  }

  /** Every object met after each of the first `n` steps exists and is linkable. */
  ghost predicate LinkableUpTo(h: Heap, obj: ObjRef, parts: seq<string>, n: nat)
    requires Closed(h) && obj in h && n <= |parts|
  {
    forall k | 1 <= k <= n ::
      Lookup(h, obj, parts[..k]).Some? && IsValidCodeObject(h[Lookup(h, obj, parts[..k]).value].kind)
  }

  lemma LookupStep(h: Heap, obj: ObjRef, parts: seq<string>, k: nat)
    requires Closed(h) && obj in h && 1 <= k <= |parts| && parts[0] in h[obj].attrs
    ensures Lookup(h, obj, parts[..k]) == Lookup(h, h[obj].attrs[parts[0]], parts[1..][..k - 1])
  {
    assert parts[..k][0] == parts[0];
    assert parts[..k][1..] == parts[1..][..k - 1];
  }

  lemma {:induction false} LinkableUpToStep(h: Heap, obj: ObjRef, parts: seq<string>, n: nat)
    requires Closed(h) && obj in h && 1 <= n <= |parts| && parts[0] in h[obj].attrs
    requires IsValidCodeObject(h[h[obj].attrs[parts[0]]].kind)
    ensures LinkableUpTo(h, obj, parts, n) <==> LinkableUpTo(h, h[obj].attrs[parts[0]], parts[1..], n - 1)
  {
    var next := h[obj].attrs[parts[0]];
    forall k | 1 <= k <= n
      ensures Lookup(h, obj, parts[..k]) == Lookup(h, next, parts[1..][..k - 1])
    {
      LookupStep(h, obj, parts, k);
    }
    assert Lookup(h, next, parts[1..][..0]) == Some(next);
    if LinkableUpTo(h, next, parts[1..], n - 1) {
      forall k | 1 <= k <= n
        ensures Lookup(h, obj, parts[..k]).Some? && IsValidCodeObject(h[Lookup(h, obj, parts[..k]).value].kind)
      {
        if k > 1 {
          assert Lookup(h, next, parts[1..][..k - 1]).Some?;
        }
      }
    }
    if LinkableUpTo(h, obj, parts, n) {
      forall j | 1 <= j <= n - 1
        ensures Lookup(h, next, parts[1..][..j]).Some? && IsValidCodeObject(h[Lookup(h, next, parts[1..][..j]).value].kind)
      {
        assert Lookup(h, obj, parts[..j + 1]) == Lookup(h, next, parts[1..][..j]);
      }
    }
  }

  /**
   The walk reaches `r` exactly when plain attribute access reaches `r` and every
   object along the way, not only the last one, is linkable.
   */
  lemma {:induction false} WalkReachedIff(h: Heap, obj: ObjRef, parts: seq<string>, r: ObjRef)
    requires Closed(h) && obj in h
    ensures Walk(h, obj, parts) == Reached(r) <==>
      Lookup(h, obj, parts) == Some(r) && LinkableUpTo(h, obj, parts, |parts|)
    decreases |parts|
  {
    if parts != [] {
      assert parts[..1] == [parts[0]];
      if parts[0] in h[obj].attrs {
        var next := h[obj].attrs[parts[0]];
        assert Lookup(h, obj, parts[..1]) == Lookup(h, next, []);
        if IsValidCodeObject(h[next].kind) {
          WalkReachedIff(h, next, parts[1..], r);
          LinkableUpToStep(h, obj, parts, |parts|);
        }
      } else {
        assert Lookup(h, obj, parts[..1]) == None;
      }
    }
  }

  /** The walk stops with "no link" at the first object that is not linkable. */
  lemma {:induction false} WalkStopsAtUnlinkable(h: Heap, obj: ObjRef, parts: seq<string>, k: nat, u: ObjRef)
    requires Closed(h) && obj in h && 1 <= k <= |parts|
    requires LinkableUpTo(h, obj, parts, k - 1)
    requires Lookup(h, obj, parts[..k]) == Some(u) && !IsValidCodeObject(h[u].kind)
    ensures Walk(h, obj, parts) == Unlinkable(u)
    decreases |parts|
  {
    LookupStepFirst(h, obj, parts, k);
    var next := h[obj].attrs[parts[0]];
    if k == 1 {
      assert parts[..1][1..] == [];
    } else {
      LinkableFirst(h, obj, parts, k - 1);
      LinkableUpToStep(h, obj, parts, k - 1);
      LookupStep(h, obj, parts, k);
      WalkStopsAtUnlinkable(h, next, parts[1..], k - 1, u);
    }
  }

  /** The walk stops with an attribute error at the first missing attribute. */
  lemma {:induction false} WalkStopsAtMissing(h: Heap, obj: ObjRef, parts: seq<string>, k: nat)
    requires Closed(h) && obj in h && 1 <= k <= |parts|
    requires LinkableUpTo(h, obj, parts, k - 1)
    requires Lookup(h, obj, parts[..k]) == None
    ensures Lookup(h, obj, parts[..k - 1]).Some?
    ensures Walk(h, obj, parts) == Missing(Lookup(h, obj, parts[..k - 1]).value, parts[k - 1])
    decreases |parts|
  {
    if k == 1 {
      assert parts[..1] == [parts[0]];
      assert parts[..0] == [];
    } else {
      LinkableFirst(h, obj, parts, k - 1);
      var next := h[obj].attrs[parts[0]];
      LinkableUpToStep(h, obj, parts, k - 1);
      LookupStep(h, obj, parts, k);
      LookupStep(h, obj, parts, k - 1);
      assert parts[1..][k - 2] == parts[k - 1];
      WalkStopsAtMissing(h, next, parts[1..], k - 1);
    }
  }

  lemma LookupStepFirst(h: Heap, obj: ObjRef, parts: seq<string>, k: nat)
    requires Closed(h) && obj in h && 1 <= k <= |parts|
    requires Lookup(h, obj, parts[..k]).Some?
    ensures parts[0] in h[obj].attrs
  {
  }

  lemma LinkableFirst(h: Heap, obj: ObjRef, parts: seq<string>, n: nat)
    requires Closed(h) && obj in h && 1 <= n <= |parts|
    requires LinkableUpTo(h, obj, parts, n)
    ensures parts[0] in h[obj].attrs && IsValidCodeObject(h[h[obj].attrs[parts[0]]].kind)
  {
    assert Lookup(h, obj, parts[..1]).Some?;
    assert parts[..1] == [parts[0]];
    assert Lookup(h, obj, parts[..1]) == Lookup(h, h[obj].attrs[parts[0]], []);
  }

  // ---------------------------------------------------------------------------
  // Paths, line ranges and the URL

  /** The root with exactly one trailing separator. */
  function AsDirectory(root: string): string {
    if root != [] && root[|root| - 1] == '/' then root else root + "/"
  }

  /** `PurePath(path).relative_to(root)`, as a prefix strip; the root itself gives ".". */
  function RelativeTo(path: string, root: string): Option<string> {
    if path == root then Some(".")
    else if AsDirectory(root) <= path then Some(path[|AsDirectory(root)|..])
    else None
  }

  /** Joining the root and a relative path gives back the path it was taken from. */
  lemma RelativeToJoin(path: string, root: string)
    requires RelativeTo(path, root).Some? && path != root
    ensures AsDirectory(root) + RelativeTo(path, root).value == path
  {
  }

  /** A path below the root is taken relative to it exactly. */
  lemma RelativeToOf(root: string, rel: string)
    requires rel != []
    ensures RelativeTo(AsDirectory(root) + rel, root) == Some(rel)
  {
  }

  /** The URL fragment selecting the object's lines; empty when the lines are unavailable. */
  function LineSpec(src: Option<SourceLines>): string {
    match src
    case None => ""
    case Some(SourceLines(lines, start)) =>
      "#L" + IntToDecimal(start) + "-L" + IntToDecimal(start + |lines| - 1)
  }

  /** Reads `#L<a>-L<b>` back as the pair of line numbers. */
  function ParseLineSpec(s: string): Option<(nat, nat)> {
    if |s| < 2 || s[..2] != "#L" then None
    else
      var t := s[2..];
      var n := DigitRun(t);
      if n == 0 || |t| < n + 2 || t[n..n + 2] != "-L" then None
      else
        var u := t[n + 2..];
        if u == [] || !AllDigits(u) then None
        else Some((DecimalValue(t[..n]), DecimalValue(u)))
  }

  lemma ParseLineSpecOf(a: string, b: string)
    requires a != [] && AllDigits(a) && b != [] && AllDigits(b)
    ensures ParseLineSpec("#L" + a + "-L" + b) == Some((DecimalValue(a), DecimalValue(b)))
  {
    var s := "#L" + a + "-L" + b;
    assert s[..2] == "#L";
    var t := s[2..];
    assert t == a + ("-L" + b);
    DigitRunOf(a, "-L" + b);
    var n := DigitRun(t);
    assert t[..n] == a;
    assert t[n..n + 2] == "-L";
    assert t[n + 2..] == b;
    assert ParseLineSpec(s) == Some((DecimalValue(t[..n]), DecimalValue(t[n + 2..])));
  }

  /**
   The fragment denotes exactly the object's lines: it starts at the first line and
   spans as many lines as the source has, so its end is never before its start.
   */
  lemma LineSpecCoversSource(lines: seq<string>, start: nat)
    requires lines != []
    ensures ParseLineSpec(LineSpec(Some(SourceLines(lines, start)))) == Some((start, start + |lines| - 1))
    ensures start <= start + |lines| - 1
  {
    var last: nat := start + |lines| - 1;
    assert IntToDecimal(start) == NatToDecimal(start);
    assert IntToDecimal(last) == NatToDecimal(last);
    assert LineSpec(Some(SourceLines(lines, start))) == "#L" + NatToDecimal(start) + "-L" + NatToDecimal(last);
    ParseLineSpecOf(NatToDecimal(start), NatToDecimal(last));
    DecimalRoundTrip(start);
    DecimalRoundTrip(last);
  }

  /** The link for a file of the repository, on the given branch. */
  function Url(branch: string, file: string, lineSpec: string): string {
    GithubTree + branch + "/" + file + lineSpec
  }

  /** Lines 215-229: from the object reached to the link, if any. */
  function LinkFor(o: PyObject, branch: string, root: string): Result<Option<string>, LinkError> {
    match o.sourceFile
    case Native => Failure(TypeError)
    case NoPath => Success(None)
    case Path(f) =>
      if !Contains(f, "qiskit") then Success(None)
      else match RelativeTo(f, root)
        case None => Failure(NotRelative(f, root))
        case Some(rel) => Success(Some(Url(branch, rel, LineSpec(o.sourceLines))))
  }

  /** `linkcode_resolve(domain, info)` with the branch cached at module load passed in. */
  function Linkcode(domain: string, info: Info, modules: map<string, ObjRef>, h: Heap,
                    branch: string, root: string): Result<Option<string>, LinkError>
    requires Closed(h) && Loaded(modules, h)
  {
    if domain != "py" then Success(None)
    else if info.moduleName !in modules then Success(None)
    else match Walk(h, modules[info.moduleName], Split(info.fullname, '.'))
      case Missing(owner, name) => Failure(AttributeError(owner, name))
      case Unlinkable(_) => Success(None)
      case Reached(o) => LinkFor(h[o], branch, root)
  }

  /** The imperative form of `linkcode_resolve`, with the loop over the name's parts. */
  method LinkcodeResolve(domain: string, info: Info, modules: map<string, ObjRef>, h: Heap,
                         branch: string, root: string) returns (r: Result<Option<string>, LinkError>)
    requires Closed(h) && Loaded(modules, h)
    ensures r == Linkcode(domain, info, modules, h, branch, root)
  {
    if domain != "py" {
      return Success(None);
    }
    if info.moduleName !in modules {
      return Success(None);
    }
    var obj := modules[info.moduleName];
    var parts := Split(info.fullname, '.');
    var i := 0;
    while i < |parts|
      invariant 0 <= i <= |parts| && obj in h
      invariant Walk(h, modules[info.moduleName], parts) == Walk(h, obj, parts[i..])
      invariant i > 0 ==> IsValidCodeObject(h[obj].kind)
    {
      var part := parts[i];
      if part !in h[obj].attrs {
        return Failure(AttributeError(obj, part));
      }
      obj := h[obj].attrs[part];
      if !IsValidCodeObject(h[obj].kind) {
        return Success(None);
      }
      i := i + 1;
    }
    r := LinkFor(h[obj], branch, root);
  }

  // ---------------------------------------------------------------------------
  // What linkcode_resolve promises

  /**
   No link for other domains, for modules not yet loaded, or for objects whose source
   file is unknown or outside the package; a natively defined object raises.
   */
  lemma EarlyExits(domain: string, info: Info, modules: map<string, ObjRef>, h: Heap,
                   branch: string, root: string)
    requires Closed(h) && Loaded(modules, h)
    ensures domain != "py" ==> Linkcode(domain, info, modules, h, branch, root) == Success(None)
    ensures info.moduleName !in modules ==> Linkcode(domain, info, modules, h, branch, root) == Success(None)
    ensures domain == "py" && info.moduleName in modules ==>
      var w := Walk(h, modules[info.moduleName], Split(info.fullname, '.'));
      w.Reached? ==>
        var f := h[w.obj].sourceFile;
        && (f.NoPath? || (f.Path? && !Contains(f.path, "qiskit")) ==>
             Linkcode(domain, info, modules, h, branch, root) == Success(None))
        && (f.Native? ==> Linkcode(domain, info, modules, h, branch, root) == Failure(TypeError))
  {
  }

  /**
   A link is produced only for an object reached through linkable objects at every
   step, whose source file mentions the package and lies under the root; the URL is
   the tree of the branch, the relative path and the line fragment.
   */
  lemma {:induction false} LinkAnatomy(domain: string, info: Info, modules: map<string, ObjRef>, h: Heap,
                                       branch: string, root: string, url: string)
    requires Closed(h) && Loaded(modules, h)
    requires Linkcode(domain, info, modules, h, branch, root) == Success(Some(url))
    ensures domain == "py" && info.moduleName in modules
    ensures var start := modules[info.moduleName];
      var parts := Split(info.fullname, '.');
      && Lookup(h, start, parts).Some?
      && LinkableUpTo(h, start, parts, |parts|)
      && var o := h[Lookup(h, start, parts).value];
      && o.sourceFile.Path?
      && Contains(o.sourceFile.path, "qiskit")
      && RelativeTo(o.sourceFile.path, root).Some?
      && url == GithubTree + branch + "/" + RelativeTo(o.sourceFile.path, root).value + LineSpec(o.sourceLines)
  {
    var start := modules[info.moduleName];
    var parts := Split(info.fullname, '.');
    var w := Walk(h, start, parts);
    WalkReachedIff(h, start, parts, w.obj);
  }

  /**
   An object reached through linkable objects, whose source file mentions the package,
   gets the link built from the branch, its path relative to the root and its line
   fragment; a source file outside the root makes `relative_to` raise.
   */
  lemma LinkProduced(domain: string, info: Info, modules: map<string, ObjRef>, h: Heap,
                     branch: string, root: string, o: ObjRef, f: string)
    requires Closed(h) && Loaded(modules, h)
    requires domain == "py" && info.moduleName in modules
    requires Walk(h, modules[info.moduleName], Split(info.fullname, '.')) == Reached(o)
    requires h[o].sourceFile == Path(f) && Contains(f, "qiskit")
    ensures Linkcode(domain, info, modules, h, branch, root) ==
      if RelativeTo(f, root).Some?
      then Success(Some(GithubTree + branch + "/" + RelativeTo(f, root).value + LineSpec(h[o].sourceLines)))
      else Failure(NotRelative(f, root))
  {
  }

  /** The first object on the way that is not linkable ends the call with no link. */
  lemma UnlinkableGivesNoLink(info: Info, modules: map<string, ObjRef>, h: Heap,
                              branch: string, root: string, k: nat, u: ObjRef)
    requires Closed(h) && Loaded(modules, h) && info.moduleName in modules
    requires var parts := Split(info.fullname, '.');
      && 1 <= k <= |parts|
      && LinkableUpTo(h, modules[info.moduleName], parts, k - 1)
      && Lookup(h, modules[info.moduleName], parts[..k]) == Some(u)
    requires !IsValidCodeObject(h[u].kind)
    ensures Linkcode("py", info, modules, h, branch, root) == Success(None)
  {
    WalkStopsAtUnlinkable(h, modules[info.moduleName], Split(info.fullname, '.'), k, u);
  }

  /** A missing attribute before any unlinkable object is an error, not "no link". */
  lemma MissingAttributeRaises(info: Info, modules: map<string, ObjRef>, h: Heap,
                               branch: string, root: string, k: nat)
    requires Closed(h) && Loaded(modules, h) && info.moduleName in modules
    requires var parts := Split(info.fullname, '.');
      && 1 <= k <= |parts|
      && LinkableUpTo(h, modules[info.moduleName], parts, k - 1)
      && Lookup(h, modules[info.moduleName], parts[..k]) == None
    ensures var parts := Split(info.fullname, '.');
      var owner := Lookup(h, modules[info.moduleName], parts[..k - 1]);
      && owner.Some?
      && Linkcode("py", info, modules, h, branch, root) == Failure(AttributeError(owner.value, parts[k - 1]))
  {
    WalkStopsAtMissing(h, modules[info.moduleName], Split(info.fullname, '.'), k);
  }

  /** A small package: module `qiskit.circuit` holding a class `Gate` and the builtin `abs`. */
  const ExampleHeap: Heap := map[
    0 := PyObject(Inspect(false, false, false, false), map["Gate" := 1, "abs" := 2], NoPath, None),
    1 := PyObject(Inspect(true, false, false, false), map[], Path("/r/qiskit.py"),
                  Some(SourceLines(["class Gate:", "    pass"], 20))),
    2 := PyObject(Inspect(false, false, false, true), map[], Native, None)]

  const ExampleModules: map<string, ObjRef> := map["qiskit.circuit" := 0]

  /** The example class lives in a file of the package, below the root `/r`. */
  lemma ExampleFile()
    ensures Contains("/r/qiskit.py", "qiskit") && RelativeTo("/r/qiskit.py", "/r") == Some("qiskit.py")
  {
    var f := "/r/qiskit.py";
    assert f[3..9] == "qiskit";
    assert OccursAt(f, "qiskit", 3);
    assert f[..3] == AsDirectory("/r");
    assert f[3..] == "qiskit.py";
  }

  /** Two source lines starting at line 20 give the fragment `#L20-L21`. */
  lemma ExampleLineSpec()
    ensures LineSpec(Some(SourceLines(["class Gate:", "    pass"], 20))) == "#L20-L21"
  {
    assert IntToDecimal(20) == "20";
    assert IntToDecimal(21) == "21";
  }

  /** A class of the package gets a link to its file and to the lines it spans. */
  lemma ClassLinkExample()
    ensures Linkcode("py", Info("qiskit.circuit", "Gate"), ExampleModules, ExampleHeap, "main", "/r")
      == Success(Some(Url("main", "qiskit.py", "#L20-L21")))
  {
    SplitSepFree("Gate", '.');
    assert Walk(ExampleHeap, 0, ["Gate"]) == Reached(1);
    ExampleFile();
    ExampleLineSpec();
    LinkProduced("py", Info("qiskit.circuit", "Gate"), ExampleModules, ExampleHeap, "main", "/r", 1, "/r/qiskit.py");
  }

  /** A builtin function gets no link, and neither does a symbol of another domain. */
  lemma NoLinkExamples()
    ensures Linkcode("py", Info("qiskit.circuit", "abs"), ExampleModules, ExampleHeap, "main", "/src") == Success(None)
    ensures Linkcode("js", Info("qiskit.circuit", "Gate"), ExampleModules, ExampleHeap, "main", "/src") == Success(None)
  {
    SplitSepFree("abs", '.');
    assert Walk(ExampleHeap, 0, ["abs"]) == Unlinkable(2);
  }
}
