/** The two path computations of the file handlers: Go's `filepath.Ext` and the location
    `storage/users/<owner>/<id><ext>` of a stored file. */
module Paths {

  /** `filepath.Ext`: the suffix starting at the last '.' of the final path element, or ""
      when that element has no '.'. */
  function Ext(path: string): (e: string)
    ensures |e| <= |path| && e == path[|path| - |e|..]
    ensures e == "" || e[0] == '.'
    ensures forall i :: 0 < i < |e| ==> e[i] != '.' && e[i] != '/'
    decreases |path|
  {
    if |path| == 0 || path[|path| - 1] == '/' then ""
    else if path[|path| - 1] == '.' then "."
    else
      var e := Ext(path[..|path| - 1]);
      if e == "" then "" else e + [path[|path| - 1]]
  }

  /** Ext returns the suffix from the last '.' when no '/' follows that '.'. */
  lemma {:induction false} ExtFindsDot(path: string, i: int)
    requires 0 <= i < |path| && path[i] == '.'
    requires forall j :: i < j < |path| ==> path[j] != '/' && path[j] != '.'
    ensures Ext(path) == path[i..]
    decreases |path|
  {
    if i < |path| - 1 {
      var p := path[..|path| - 1];
      ExtFindsDot(p, i);
      assert p[i..] + [path[|path| - 1]] == path[i..];
    }
  }

  /** Ext is empty when the final path element has no '.'. */
  lemma {:induction false} ExtNoDot(path: string)
    requires forall j :: 0 <= j < |path| && path[j] == '.' ==> exists k :: j < k < |path| && path[k] == '/'
    ensures Ext(path) == ""
    decreases |path|
  {
    if |path| > 0 && path[|path| - 1] != '/' {
      var p := path[..|path| - 1];
      assert path[|path| - 1] != '.';
      forall j | 0 <= j < |p| && p[j] == '.'
        ensures exists k :: j < k < |p| && p[k] == '/'
      {
        var k :| j < k < |path| && path[k] == '/';
        assert k < |p| && p[k] == '/';
      }
      ExtNoDot(p);
    }
  }

  /** Where a stored file's bytes live: `filepath.Join(StorageDir, "users", owner)` joined
      with `<id><ext>`, after Join's cleaning of "./storage". */
  function UserFilePath(owner: string, id: string, ext: string): string
  {
    "storage/users/" + owner + "/" + id + ext
  }

  /** For one owner and one extension, distinct file ids give distinct locations. */
  lemma UserFilePathInjective(owner: string, a: string, b: string, ext: string)
    requires UserFilePath(owner, a, ext) == UserFilePath(owner, b, ext)
    ensures a == b
  {
    var n := |"storage/users/" + owner + "/"|;
    var pa, pb := UserFilePath(owner, a, ext), UserFilePath(owner, b, ext);
    assert |a| == |b|;
    assert a == pa[n..n + |a|];
    assert b == pb[n..n + |b|];
  }

  /** Ids without a '.' followed by extensions that are empty or start with '.': equal
      locations split into equal ids and equal extensions, since each id ends at the
      first '.' after the owner's directory. */
  lemma LocationSplits(owner: string, a: string, b: string, ea: string, eb: string)
    requires forall i :: 0 <= i < |a| ==> a[i] != '.'
    requires forall i :: 0 <= i < |b| ==> b[i] != '.'
    requires ea == "" || ea[0] == '.'
    requires eb == "" || eb[0] == '.'
    requires UserFilePath(owner, a, ea) == UserFilePath(owner, b, eb)
    ensures a == b && ea == eb
  {
    var pre := "storage/users/" + owner + "/";
    var s, t := a + ea, b + eb;
    assert UserFilePath(owner, a, ea) == pre + s;
    assert UserFilePath(owner, b, eb) == pre + t;
    assert s == (pre + s)[|pre|..] == (pre + t)[|pre|..] == t;
    assert a == s[..|a|] == t[..|b|] == b;
    assert ea == s[|a|..] == t[|b|..] == eb;
  }

  /** Ids without a '.', such as the uuids the handler draws, give distinct locations
      whatever the uploaded names' extensions. */
  lemma UserFilePathDistinct(owner: string, a: string, b: string, nameA: string, nameB: string)
    requires forall i :: 0 <= i < |a| ==> a[i] != '.'
    requires forall i :: 0 <= i < |b| ==> b[i] != '.'
    requires UserFilePath(owner, a, Ext(nameA)) == UserFilePath(owner, b, Ext(nameB))
    ensures a == b && Ext(nameA) == Ext(nameB)
  {
    LocationSplits(owner, a, b, Ext(nameA), Ext(nameB));
  }
}
