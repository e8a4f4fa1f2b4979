/**
  * Path computation behind `safe_join` (autogpt/commands/file_operations.py:52-68):
  * POSIX `os.path.join`, `os.path.normpath`, `os.path.commonprefix`, and the
  * `os.path.relpath` / `basename` used by `search_files`. Paths are `/`-separated
  * strings; everything here is pure.
  */
module Paths {
  import opened Wrappers

  /** Message of the ValueError that `safe_join` raises. */
  const OutsideMessage := "Attempted " + "to access " + "outside of " + "working " + "directory."

  predicate IsAbsolute(p: string) {
    |p| > 0 && p[0] == '/'
  }

  /** A single directory-entry name: what normalisation leaves between two slashes. */
  predicate IsName(c: string) {
    c != "" && c != "." && c != ".." && '/' !in c
  }

  predicate AllNames(cs: seq<string>) {
    forall i :: 0 <= i < |cs| ==> IsName(cs[i])
  }

  // ---------------------------------------------------------------------------
  // '/'.join(parts) and s.split('/')
  // ---------------------------------------------------------------------------

  /** `"/".join(parts)` */
  function Intercalate(parts: seq<string>): string
    decreases |parts|
  {
    if parts == [] then ""
    else if |parts| == 1 then parts[0]
    else parts[0] + "/" + Intercalate(parts[1..])
  }

  /** `s.split("/")`: never empty, no piece holds a slash, and joining the pieces gives `s` back. */
  function Split(s: string): (parts: seq<string>)
    ensures |parts| >= 1
    ensures forall i :: 0 <= i < |parts| ==> '/' !in parts[i]
    ensures Intercalate(parts) == s
    decreases |s|
  {
    if s == [] then [""]
    else
      var rest := Split(s[1..]);
      if s[0] == '/' then
        assert ([""] + rest)[1..] == rest;
        [""] + rest
      else
        var parts := [[s[0]] + rest[0]] + rest[1..];
        assert |rest| > 1 ==> parts[1..] == rest[1..] && Intercalate(rest) == rest[0] + "/" + Intercalate(rest[1..]);
        parts
  }

  lemma {:induction false} SplitNoSlash(a: string)
    requires '/' !in a
    ensures Split(a) == [a]
    decreases |a|
  {
    if a != [] {
      SplitNoSlash(a[1..]);
    }
  }

  lemma {:induction false} SplitAtSlash(a: string, t: string)
    requires '/' !in a
    ensures Split(a + "/" + t) == [a] + Split(t)
    decreases |a|
  {
    var s := a + "/" + t;
    if a == [] {
      assert s[1..] == t;
    } else {
      assert s[1..] == a[1..] + "/" + t;
      SplitAtSlash(a[1..], t);
      assert [a[0]] + a[1..] == a;
    }
  }

  /** Splitting undoes joining, for pieces without slashes. */
  lemma {:induction false} SplitIntercalate(ps: seq<string>)
    requires |ps| >= 1
    requires forall i :: 0 <= i < |ps| ==> '/' !in ps[i]
    ensures Split(Intercalate(ps)) == ps
    decreases |ps|
  {
    if |ps| == 1 {
      SplitNoSlash(ps[0]);
    } else {
      SplitIntercalate(ps[1..]);
      SplitAtSlash(ps[0], Intercalate(ps[1..]));
    }
  }

  lemma {:induction false} IntercalateSnoc(cs: seq<string>, x: string)
    requires cs != []
    ensures Intercalate(cs + [x]) == Intercalate(cs) + "/" + x
    decreases |cs|
  {
    if |cs| > 1 {
      assert (cs + [x])[1..] == cs[1..] + [x];
      IntercalateSnoc(cs[1..], x);
    }
  }

  lemma {:induction false} IntercalateHead(cs: seq<string>)
    requires cs != [] && cs[0] != ""
    ensures Intercalate(cs) != "" && Intercalate(cs)[0] == cs[0][0]
  {
  }

  lemma {:induction false} IntercalateLast(cs: seq<string>)
    requires cs != [] && cs[|cs| - 1] != "" && '/' !in cs[|cs| - 1]
    ensures Intercalate(cs) != "" && Intercalate(cs)[|Intercalate(cs)| - 1] != '/'
  {
    var n := |cs|;
    if n > 1 {
      IntercalateSnoc(cs[..n - 1], cs[n - 1]);
      assert cs[..n - 1] + [cs[n - 1]] == cs;
    }
    var last := cs[n - 1];
    assert last[|last| - 1] in last;
  }

  // ---------------------------------------------------------------------------
  // os.path.join
  // ---------------------------------------------------------------------------

  /**
    * `os.path.join(path, *segs)` on POSIX: an absolute segment discards what came
    * before it, otherwise a slash is inserted unless the path is empty or already
    * ends with one.
    */
  function Join(path: string, segs: seq<string>): string
    decreases |segs|
  {
    if segs == [] then path
    else
      var b := segs[0];
      var next :=
        if |b| > 0 && b[0] == '/' then b
        else if path == "" || path[|path| - 1] == '/' then path + b
        else path + "/" + b;
      Join(next, segs[1..])
  }

  lemma {:induction false} JoinAbsolute(path: string, segs: seq<string>)
    requires IsAbsolute(path)
    ensures IsAbsolute(Join(path, segs))
    decreases |segs|
  {
    if segs != [] {
      var b := segs[0];
      var next :=
        if |b| > 0 && b[0] == '/' then b
        else if path == "" || path[|path| - 1] == '/' then path + b
        else path + "/" + b;
      JoinAbsolute(next, segs[1..]);
    }
  }

  // ---------------------------------------------------------------------------
  // os.path.normpath
  // ---------------------------------------------------------------------------

  /** The leading slashes `normpath` keeps: exactly two are kept, one or three or more become one. */
  function Initial(path: string): string {
    if |path| > 0 && path[0] == '/' then
      if |path| >= 2 && path[1] == '/' && !(|path| >= 3 && path[2] == '/') then "//" else "/"
    else ""
  }

  /**
    * The component loop of `normpath`: empty and `.` parts are dropped, `..` pops
    * the last kept part, and is kept only in a relative path with nothing (or only
    * `..`) to pop; at the root of an absolute path it is dropped.
    */
  function NormComps(acc: seq<string>, comps: seq<string>, absolute: bool): seq<string>
    decreases |comps|
  {
    if comps == [] then acc
    else
      var c := comps[0];
      var next :=
        if c == "" || c == "." then acc
        else if c != ".." || (!absolute && acc == []) || (acc != [] && acc[|acc| - 1] == "..") then acc + [c]
        else if acc != [] then acc[..|acc| - 1]
        else acc;
      NormComps(next, comps[1..], absolute)
  }

  /** `os.path.normpath(path)` on POSIX. */
  function NormPath(path: string): string {
    if path == "" then "."
    else
      var initial := Initial(path);
      var p := initial + Intercalate(NormComps([], Split(path), initial != ""));
      if p == "" then "." else p
  }

  predicate IsNormalAbsolute(p: string) {
    IsAbsolute(p) && NormPath(p) == p
  }

  lemma {:induction false} NormCompsNames(acc: seq<string>, comps: seq<string>)
    requires AllNames(acc)
    requires forall i :: 0 <= i < |comps| ==> '/' !in comps[i]
    ensures AllNames(NormComps(acc, comps, true))
    decreases |comps|
  {
    if comps != [] {
      var c := comps[0];
      var next :=
        if c == "" || c == "." then acc
        else if c != ".." || (acc != [] && acc[|acc| - 1] == "..") then acc + [c]
        else if acc != [] then acc[..|acc| - 1]
        else acc;
      NormCompsNames(next, comps[1..]);
    }
  }

  lemma {:induction false} NormCompsKeepsNames(acc: seq<string>, cs: seq<string>, absolute: bool)
    requires AllNames(cs)
    ensures NormComps(acc, cs, absolute) == acc + cs
    decreases |cs|
  {
    if cs != [] {
      NormCompsKeepsNames(acc + [cs[0]], cs[1..], absolute);
      assert acc + [cs[0]] + cs[1..] == acc + cs;
    }
  }

  lemma NormPathRoots(init: string)
    requires init == "/" || init == "//"
    ensures NormPath(init) == init
  {
    SplitIntercalate(["", ""]);
    SplitIntercalate(["", "", ""]);
    assert NormComps([], ["", ""], true) == [];
    assert NormComps([], ["", "", ""], true) == [];
  }

  /** The pieces of a path that starts with one or two slashes. */
  lemma SplitRooted(init: string, x: string)
    requires init == "/" || init == "//"
    ensures Split(init + x) == (if init == "/" then [""] else ["", ""]) + Split(x)
  {
    SplitAtSlash("", x);
    assert "" + "/" + x == "/" + x;
    if init == "//" {
      SplitAtSlash("", "/" + x);
      assert "" + "/" + ("/" + x) == init + x;
    }
  }

  lemma {:induction false} NormCompsSkipEmpty(lead: seq<string>, ds: seq<string>)
    requires forall i :: 0 <= i < |lead| ==> lead[i] == ""
    ensures NormComps([], lead + ds, true) == NormComps([], ds, true)
    decreases |lead|
  {
    if lead == [] {
      assert lead + ds == ds;
    } else {
      assert (lead + ds)[0] == "";
      assert (lead + ds)[1..] == lead[1..] + ds;
      NormCompsSkipEmpty(lead[1..], ds);
    }
  }

  /** A slash (or two) followed by names joined with slashes is already normal. */
  lemma NormalFixed(init: string, ds: seq<string>)
    requires init == "/" || init == "//"
    requires AllNames(ds)
    ensures NormPath(init + Intercalate(ds)) == init + Intercalate(ds)
  {
    var x := Intercalate(ds);
    var q := init + x;
    if ds == [] {
      assert q == init;
      NormPathRoots(init);
    } else {
      IntercalateHead(ds);
      assert Initial(q) == init;
      SplitIntercalate(ds);
      SplitRooted(init, x);
      var lead: seq<string> := if init == "/" then [""] else ["", ""];
      NormCompsSkipEmpty(lead, ds);
      NormCompsKeepsNames([], ds, true);
      assert NormComps([], Split(q), true) == ds;
    }
  }

  /** The shape of a normalised absolute path: its leading slashes, then names. */
  lemma NormPathAbsoluteShape(p: string)
    requires IsAbsolute(p)
    ensures Initial(p) == "/" || Initial(p) == "//"
    ensures AllNames(NormComps([], Split(p), true))
    ensures NormPath(p) == Initial(p) + Intercalate(NormComps([], Split(p), true))
  {
    NormCompsNames([], Split(p));
  }

  /** Normalising an absolute path twice gives what normalising it once gives. */
  lemma NormPathIdempotent(p: string)
    requires IsAbsolute(p)
    ensures IsNormalAbsolute(NormPath(p))
  {
    NormPathAbsoluteShape(p);
    NormalFixed(Initial(p), NormComps([], Split(p), true));
  }

  // ---------------------------------------------------------------------------
  // os.path.commonprefix and safe_join
  // ---------------------------------------------------------------------------

  /**
    * `os.path.commonprefix([a, b])`: the longest common prefix, compared element by
    * element (characters for strings, components for lists). The library compares
    * `min` and `max` of the list, which for two items are the two items.
    */
  function CommonPrefix<T(==)>(a: seq<T>, b: seq<T>): (c: seq<T>)
    ensures c <= a && c <= b
    ensures |c| == |a| || |c| == |b| || a[|c|] != b[|c|]
  {
    if a == [] || b == [] || a[0] != b[0] then []
    else [a[0]] + CommonPrefix(a[1..], b[1..])
  }

  /** The test `commonprefix([base, p]) != base` fails exactly when `base` is a prefix of `p`. */
  lemma CommonPrefixIsFirst<T>(a: seq<T>, b: seq<T>)
    ensures CommonPrefix(a, b) == a <==> a <= b
  {
  }

  /**
    * `safe_join(base, *segs)`. Restricted: normalise `base` joined with the segments
    * and raise unless the result begins with `base` as a string. Unrestricted: the
    * segments are joined onto "/" and `base` plays no part.
    */
  function SafeJoin(restricted: bool, base: string, segs: seq<string>): (r: Result<string, string>)
    ensures restricted ==> (r.Success? <==> base <= NormPath(Join(base, segs)))
    ensures restricted && r.Success? ==> base <= r.value && r.value == NormPath(Join(base, segs))
    ensures r.Failure? ==> r.error == OutsideMessage
    ensures !restricted ==> r.Success? && IsNormalAbsolute(r.value)
    ensures r.Success? && IsAbsolute(base) ==> IsNormalAbsolute(r.value)
  {
    if restricted then
      var p := NormPath(Join(base, segs));
      CommonPrefixIsFirst(base, p);
      if CommonPrefix(base, p) != base then Failure(OutsideMessage)
      else
        (if IsAbsolute(base) then JoinAbsolute(base, segs); NormPathIdempotent(Join(base, segs)); Success(p)
         else Success(p))
    else
      JoinAbsolute("/", segs);
      NormPathIdempotent(Join("/", segs));
      Success(NormPath(Join("/", segs)))
  }

  /** With restriction off the result does not depend on `base`. */
  lemma SafeJoinIgnoresBase(base1: string, base2: string, segs: seq<string>)
    ensures SafeJoin(false, base1, segs) == SafeJoin(false, base2, segs)
  {
  }

  lemma {:induction false} IntercalateAppend(cs: seq<string>, ts: seq<string>)
    requires cs != [] && ts != []
    ensures Intercalate(cs + ts) == Intercalate(cs) + "/" + Intercalate(ts)
    decreases |cs|
  {
    if |cs| == 1 {
      assert (cs + ts)[1..] == ts;
    } else {
      assert (cs + ts)[1..] == cs[1..] + ts;
      IntercalateAppend(cs[1..], ts);
    }
  }

  /** Joining a relative path of names onto a normal absolute directory just glues them with a slash. */
  lemma JoinNames(cs: seq<string>, ts: seq<string>)
    requires AllNames(cs) && AllNames(ts) && ts != []
    ensures Join("/" + Intercalate(cs), [Intercalate(ts)]) == "/" + Intercalate(cs + ts)
    ensures "/" + Intercalate(cs) <= "/" + Intercalate(cs + ts)
  {
    var base := "/" + Intercalate(cs);
    IntercalateHead(ts);
    var b := Intercalate(ts);
    assert b[0] != '/' by {
      assert ts[0][0] in ts[0];
    }
    if cs == [] {
      assert cs + ts == ts;
    } else {
      IntercalateAppend(cs, ts);
      IntercalateLast(cs);
      assert base[|base| - 1] != '/';
      assert Join(base, [b]) == Join(base + "/" + b, []);
      assert base + "/" + b == "/" + Intercalate(cs + ts);
    }
  }

  /**
    * A relative path of plain names under a normal absolute base resolves,
    * with the restriction on, to the base followed by those names.
    */
  lemma SafeJoinNames(cs: seq<string>, ts: seq<string>)
    requires AllNames(cs) && AllNames(ts) && ts != []
    ensures SafeJoin(true, "/" + Intercalate(cs), [Intercalate(ts)]) == Success("/" + Intercalate(cs + ts))
    ensures Key("/" + Intercalate(cs + ts)) == cs + ts
  {
    JoinNames(cs, ts);
    assert AllNames(cs + ts);
    NormalFixed("/", cs + ts);
    KeyOfNormal(cs + ts);
  }

  /** How `normpath` treats an absolute path with a single leading slash, given its pieces. */
  lemma NormPathOfPieces(p: string, pieces: seq<string>, comps: seq<string>)
    requires |pieces| >= 1 && forall i :: 0 <= i < |pieces| ==> '/' !in pieces[i]
    requires Intercalate(pieces) == p && Initial(p) == "/"
    requires NormComps([], pieces, true) == comps
    ensures NormPath(p) == "/" + Intercalate(comps)
  {
    SplitIntercalate(pieces);
  }

  /**
    * Going up from `/w` and down along the names `ts` is accepted exactly when `w`
    * is a prefix of the path `ts` spells: the test compares characters, not path
    * components, so `../ws2/x` from `/ws` escapes into a sibling directory, while
    * `../etc/passwd` is refused. An accepted path lies at or below `/w` again
    * exactly when its first name is `w`.
    */
  lemma ParentThenName(w: string, ts: seq<string>)
    requires IsName(w) && AllNames(ts) && ts != []
    ensures var f := Intercalate(ts);
      SafeJoin(true, "/" + w, ["../" + f]).Success? <==> w <= f
    ensures var f := Intercalate(ts);
      SafeJoin(true, "/" + w, ["../" + f]).Success? ==> SafeJoin(true, "/" + w, ["../" + f]).value == "/" + f
    ensures var v := "/" + Intercalate(ts);
      (v == "/" + w || "/" + w + "/" <= v) <==> ts[0] == w
  {
    ParentAccepted(w, ts);
    WithinFirstName(w, ts);
    RootedWithin(w, Intercalate(ts));
  }

  /** Putting `/` in front changes neither equality with `w` nor lying below it. */
  lemma RootedWithin(w: string, f: string)
    ensures ("/" + f == "/" + w || "/" + w + "/" <= "/" + f) <==> (f == w || w + "/" <= f)
  {
    PrefixCons('/', w + "/", f);
    assert "/" + w + "/" == ['/'] + (w + "/");
    if "/" + f == "/" + w {
      assert f == ("/" + f)[1..] == ("/" + w)[1..] == w;
    }
  }

  /** The acceptance test and the value of `safe_join` for `../` followed by names. */
  lemma ParentAccepted(w: string, ts: seq<string>)
    requires IsName(w) && AllNames(ts) && ts != []
    ensures var f := Intercalate(ts);
      SafeJoin(true, "/" + w, ["../" + f]).Success? <==> w <= f
    ensures var f := Intercalate(ts);
      SafeJoin(true, "/" + w, ["../" + f]).Success? ==> SafeJoin(true, "/" + w, ["../" + f]).value == "/" + f
  {
    var f := Intercalate(ts);
    var base := "/" + w;
    var p := base + "/" + ("../" + f);
    assert base[|base| - 1] == w[|w| - 1];
    assert Join(base, ["../" + f]) == Join(p, []);
    var pieces := ParentPieces(w, ts);
    NormPathOfPieces(p, pieces, ts);
    PrefixCons('/', w, f);
  }

  /** A path spelled by names is `w` or lies below it exactly when its first name is `w`. */
  lemma WithinFirstName(w: string, ts: seq<string>)
    requires IsName(w) && AllNames(ts) && ts != []
    ensures var f := Intercalate(ts);
      (f == w || w + "/" <= f) <==> ts[0] == w
  {
    var f := Intercalate(ts);
    var a := ts[0];
    assert IsName(a);
    if |ts| > 1 {
      var r := Intercalate(ts[1..]);
      assert f == a + "/" + r;
      assert forall i :: 0 <= i < |a| ==> f[i] == a[i] && f[i] != '/';
      assert f[|a|] == '/' && f[|a|] in f;
      if w + "/" <= f {
        assert forall i :: 0 <= i < |w| ==> f[i] == w[i] && f[i] != '/';
        assert f[|w|] == '/';
        assert a == f[..|a|] == w;
      }
      if a == w {
        assert (w + "/") == f[..|w| + 1];
      }
    } else {
      assert f == a;
      assert forall i :: 0 <= i < |f| ==> f[i] != '/';
      SlashAfterPrefix(w, f);
    }
  }

  /** What follows `w` in a string that starts with `w + "/"`. */
  lemma SlashAfterPrefix(w: string, f: string)
    ensures w + "/" <= f ==> |w| < |f| && f[|w|] == '/'
  {
    if w + "/" <= f {
      assert f[|w|] == (w + "/")[|w|];
    }
  }

  /** The pieces of `/w/../` followed by names, and how `normpath` reduces them to the names. */
  lemma ParentPieces(w: string, ts: seq<string>) returns (pieces: seq<string>)
    requires IsName(w) && AllNames(ts) && ts != []
    ensures |pieces| >= 1 && forall i :: 0 <= i < |pieces| ==> '/' !in pieces[i]
    ensures Intercalate(pieces) == "/" + w + "/" + ("../" + Intercalate(ts))
    ensures Initial("/" + w + "/" + ("../" + Intercalate(ts))) == "/"
    ensures NormComps([], pieces, true) == ts
  {
    var lead := ["", w, ".."];
    pieces := lead + ts;
    IntercalateAppend(lead, ts);
    assert Intercalate(lead[2..]) == "..";
    assert Intercalate(lead[1..]) == w + "/" + "..";
    ParentDropped(w, ts);
  }

  lemma ParentDropped(w: string, ts: seq<string>)
    requires IsName(w) && AllNames(ts)
    ensures NormComps([], ["", w, ".."] + ts, true) == ts
  {
    var pieces := ["", w, ".."] + ts;
    assert pieces[1..] == [w, ".."] + ts && pieces[1..][1..] == [".."] + ts && pieces[1..][1..][1..] == ts;
    assert NormComps([], pieces, true) == NormComps([], pieces[1..], true);
    assert NormComps([], pieces[1..], true) == NormComps([w], [".."] + ts, true);
    assert NormComps([w], [".."] + ts, true) == NormComps([], ts, true);
    NormCompsKeepsNames([], ts, true);
  }

  lemma PrefixCons<T>(c: T, a: seq<T>, b: seq<T>)
    ensures [c] + a <= [c] + b <==> a <= b
  {
    if [c] + a <= [c] + b {
      assert a == ([c] + a)[1..] == ([c] + b)[1..|a| + 1] == b[..|a|];
    }
    if a <= b {
      assert ([c] + b)[..|a| + 1] == [c] + b[..|a|];
    }
  }

  // ---------------------------------------------------------------------------
  // What the operating system resolves a path to
  // ---------------------------------------------------------------------------

  function DropEmpty(parts: seq<string>): (k: seq<string>)
    ensures forall i :: 0 <= i < |k| ==> k[i] in parts && k[i] != ""
    ensures AllNames(parts) ==> k == parts
  {
    if parts == [] then []
    else if parts[0] == "" then DropEmpty(parts[1..])
    else [parts[0]] + DropEmpty(parts[1..])
  }

  /**
    * The directory entries a path names, from the root down: the non-empty pieces
    * of the `/`-split path. For a normalised absolute path this is exactly the path
    * the kernel looks up (repeated leading slashes name the same root on Linux).
    */
  function Key(p: string): (k: seq<string>)
    ensures forall i :: 0 <= i < |k| ==> k[i] != "" && '/' !in k[i]
  {
    DropEmpty(Split(p))
  }

  lemma KeyOfNormal(cs: seq<string>)
    requires AllNames(cs)
    ensures Key("/" + Intercalate(cs)) == cs
  {
    if cs == [] {
      assert Split("/") == Split("" + "/" + "") == [""] + Split("");
    } else {
      SplitIntercalate(cs);
      SplitAtSlash("", Intercalate(cs));
      assert "" + "/" + Intercalate(cs) == "/" + Intercalate(cs);
      assert ([""] + cs)[1..] == cs;
    }
  }

  /** The entries of a path made of one or two slashes and names are those names. */
  lemma KeyOfRooted(init: string, cs: seq<string>)
    requires init == "/" || init == "//"
    requires AllNames(cs)
    ensures Key(init + Intercalate(cs)) == cs
  {
    var lead: seq<string> := if init == "/" then [""] else ["", ""];
    var x := Intercalate(cs);
    SplitRooted(init, x);
    if cs == [] {
      assert Split("") == [""];
      assert DropEmpty([""]) == [];
      assert DropEmpty(lead + [""]) == [] by {
        if init == "//" {
          assert (lead + [""])[1..] == [""] + [""];
          assert ([""] + [""])[1..] == [""];
        } else {
          assert (lead + [""])[1..] == [""];
        }
      }
    } else {
      SplitIntercalate(cs);
      assert DropEmpty(lead + cs) == cs by {
        if init == "//" {
          assert (lead + cs)[1..] == [""] + cs;
          assert ([""] + cs)[1..] == cs;
        } else {
          assert (lead + cs)[1..] == cs;
        }
      }
    }
  }

  /** What a normalised absolute path names is a sequence of plain names. */
  lemma KeyOfNormPath(p: string)
    requires IsAbsolute(p)
    ensures Key(NormPath(p)) == NormComps([], Split(p), true)
    ensures AllNames(Key(NormPath(p)))
  {
    NormPathAbsoluteShape(p);
    KeyOfRooted(Initial(p), NormComps([], Split(p), true));
  }

  // ---------------------------------------------------------------------------
  // os.path.relpath and os.path.basename
  // ---------------------------------------------------------------------------

  /**
    * `os.path.relpath(path, start)` for two absolute paths given by their entries:
    * one `..` for every entry of `start` below the common prefix, then the rest of `path`.
    */
  function RelPath(path: seq<string>, start: seq<string>): string {
    var i := |CommonPrefix(start, path)|;
    var rel := seq(|start| - i, _ => "..") + path[i..];
    if rel == [] then "." else Intercalate(rel)
  }

  /**
    * Different paths of plain names have different relative paths from the
    * same start: the number of leading `..` fixes how much of `start` they
    * share, and the names after it fix the rest.
    */
  lemma RelPathInjective(p: seq<string>, q: seq<string>, start: seq<string>)
    requires AllNames(p) && AllNames(q) && RelPath(p, start) == RelPath(q, start)
    ensures p == q
  {
    var rp, dp, np := RelPathParts(p, start);
    var rq, dq, nq := RelPathParts(q, start);
    JoinedPiecesInjective(rp, rq);
    DotsThenNames(dp, np, dq, nq);
  }

  /**
    * `relpath` as `d` times `..` followed by the names `ns` past the shared
    * part, with `p` rebuilt from that shared part and `ns`.
    */
  lemma RelPathParts(p: seq<string>, start: seq<string>) returns (r: seq<string>, d: nat, ns: seq<string>)
    requires AllNames(p)
    ensures AllNames(ns) && r == seq(d, _ => "..") + ns
    ensures d <= |start| && p == start[..|start| - d] + ns
    ensures RelPath(p, start) == if r == [] then "." else Intercalate(r)
    ensures forall i :: 0 <= i < |r| ==> '/' !in r[i] && r[i] != "."
  {
    var i := |CommonPrefix(start, p)|;
    d := |start| - i;
    ns := p[i..];
    r := seq(d, _ => "..") + ns;
    NamesAfter(p, i);
    RelPieces(r, d, ns);
    SharedThenRest(p, start);
  }

  /** A path is the part it shares with `start`, then the rest. */
  lemma SharedThenRest(p: seq<string>, start: seq<string>)
    ensures var i := |CommonPrefix(start, p)|;
      p == start[..i] + p[i..]
  {
    var c := CommonPrefix(start, p);
    assert c == start[..|c|] == p[..|c|];
    assert p == p[..|c|] + p[|c|..];
  }

  /** The entries of a list of plain names past its first `n` are plain names. */
  lemma NamesAfter(k: seq<string>, n: nat)
    requires AllNames(k) && n <= |k|
    ensures AllNames(k[n..])
  {
    forall i | 0 <= i < |k| - n
      ensures IsName(k[n..][i])
    {
      assert k[n..][i] == k[n + i];
    }
  }

  /** Every piece of `..`s followed by names is free of slashes and is not `.`. */
  lemma RelPieces(r: seq<string>, d: nat, ns: seq<string>)
    requires AllNames(ns) && r == seq(d, _ => "..") + ns
    ensures forall i :: 0 <= i < |r| ==> '/' !in r[i] && r[i] != "."
  {
    forall i | 0 <= i < |r|
      ensures '/' !in r[i] && r[i] != "."
    {
      if i >= d {
        assert r[i] == ns[i - d];
      }
    }
  }

  /** The string `relpath` builds from its pieces tells the pieces apart. */
  lemma JoinedPiecesInjective(r1: seq<string>, r2: seq<string>)
    requires forall i :: 0 <= i < |r1| ==> '/' !in r1[i] && r1[i] != "."
    requires forall i :: 0 <= i < |r2| ==> '/' !in r2[i] && r2[i] != "."
    requires (if r1 == [] then "." else Intercalate(r1)) == (if r2 == [] then "." else Intercalate(r2))
    ensures r1 == r2
  {
    SplitNoSlash(".");
    if r1 != [] {
      SplitIntercalate(r1);
    }
    if r2 != [] {
      SplitIntercalate(r2);
    }
  }

  /** A run of `..` followed by plain names determines both the run and the names. */
  lemma DotsThenNames(d1: nat, a: seq<string>, d2: nat, b: seq<string>)
    requires AllNames(a) && AllNames(b)
    requires seq(d1, _ => "..") + a == seq(d2, _ => "..") + b
    ensures d1 == d2 && a == b
  {
    var r := seq(d1, _ => "..") + a;
    assert forall i :: 0 <= i < |r| ==> (r[i] == ".." <==> i < d1);
    assert forall i :: 0 <= i < |r| ==> (r[i] == ".." <==> i < d2);
    assert d1 <= |r| && d2 <= |r|;
    assert d1 == d2 by {
      if d1 < |r| || d2 < |r| {
        var m := if d1 < d2 then d1 else d2;
        assert r[m] == ".." <==> m < d1;
      }
    }
    assert a == r[d1..] == b;
  }

  /** Below `start`, the relative path is the remaining entries joined with slashes. */
  lemma RelPathBelow(path: seq<string>, start: seq<string>)
    requires start <= path && |start| < |path|
    ensures RelPath(path, start) == Intercalate(path[|start|..])
  {
    CommonPrefixIsFirst(start, path);
    assert seq(0, _ => "..") + path[|start|..] == path[|start|..];
  }

  /** `os.path.basename(p)`: what follows the last slash. */
  function BaseName(p: string): (b: string)
    ensures '/' !in b && |b| <= |p| && b == p[|p| - |b|..]
  {
    if p == [] || p[|p| - 1] == '/' then []
    else BaseName(p[..|p| - 1]) + [p[|p| - 1]]
  }

  lemma {:induction false} BaseNameNoSlash(t: string)
    requires '/' !in t
    ensures BaseName(t) == t
    decreases |t|
  {
    if t != [] {
      BaseNameNoSlash(t[..|t| - 1]);
    }
  }

  lemma {:induction false} BaseNameAfterSlash(x: string, t: string)
    ensures BaseName(x + "/" + t) == BaseName(t)
    decreases |t|
  {
    var s := x + "/" + t;
    if t != [] && t[|t| - 1] != '/' {
      assert s[..|s| - 1] == x + "/" + t[..|t| - 1];
      BaseNameAfterSlash(x, t[..|t| - 1]);
    }
  }

  lemma {:induction false} BaseNameIntercalate(ps: seq<string>)
    requires ps != [] && '/' !in ps[|ps| - 1]
    ensures BaseName(Intercalate(ps)) == ps[|ps| - 1]
    decreases |ps|
  {
    if |ps| == 1 {
      BaseNameNoSlash(ps[0]);
    } else {
      var rest := ps[1..];
      assert Intercalate(ps) == ps[0] + "/" + Intercalate(rest);
      assert rest[|rest| - 1] == ps[|ps| - 1];
      BaseNameAfterSlash(ps[0], Intercalate(rest));
      BaseNameIntercalate(rest);
    }
  }

  /** A path that is not an ancestor of `start` keeps its own last name in the relative form. */
  lemma RelPathBaseName(path: seq<string>, start: seq<string>)
    requires path != [] && !(path <= start)
    requires '/' !in path[|path| - 1]
    ensures BaseName(RelPath(path, start)) == path[|path| - 1]
  {
    var c := CommonPrefix(start, path);
    var i := |c|;
    assert i < |path|;
    var rel := seq(|start| - i, _ => "..") + path[i..];
    assert rel[|rel| - 1] == path[|path| - 1];
    BaseNameIntercalate(rel);
  }
}
