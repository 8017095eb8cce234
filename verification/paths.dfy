/** The part of `pathlib.Path` that `telegram_send.py` uses: `Path(p).suffix`,
    on POSIX paths with `/` as the only separator. */
module Paths {
  import opened Results
  import opened Text

  /** `p` without the run of `/` at its end (pathlib ignores trailing separators). */
  function TrimTrailingSlashes(p: string): (r: string)
    ensures |r| <= |p| && r == p[..|r|]
    ensures r == [] || r[|r| - 1] != '/'
    ensures forall i :: |r| <= i < |p| ==> p[i] == '/'
  {
    if |p| > 0 && p[|p| - 1] == '/' then TrimTrailingSlashes(p[..|p| - 1]) else p
  }

  /** The text after the last `/` of `t`, or all of `t` when it has none. */
  function AfterLastSlash(t: string): (name: string)
    ensures '/' !in name
    ensures |name| <= |t| && name == t[|t| - |name|..]
    ensures |name| < |t| ==> t[|t| - |name| - 1] == '/'
  {
    match LastIndexOf(t, '/')
    case None => t
    case Some(i) => t[i + 1..]
  }

  /** `Path(p).name`: the final component, the text after the last `/` once trailing
      separators are dropped. */
  function FinalComponent(p: string): (name: string)
    ensures '/' !in name
    ensures |name| <= |TrimTrailingSlashes(p)|
    ensures name == TrimTrailingSlashes(p)[|TrimTrailingSlashes(p)| - |name|..]
    ensures |name| < |TrimTrailingSlashes(p)|
      ==> TrimTrailingSlashes(p)[|TrimTrailingSlashes(p)| - |name| - 1] == '/'
  {
    AfterLastSlash(TrimTrailingSlashes(p))
  }

  /** The suffix rule of `pathlib` on one path component: from the last `.` to the
      end, provided that dot is neither the component's first character nor its last;
      otherwise empty. */
  function NameSuffix(name: string): (ext: string)
    ensures ext == [] || IsSuffixText(ext)
    ensures ext != [] ==> |ext| < |name| && ext == name[|name| - |ext|..]
  {
    match LastIndexOf(name, '.')
    case None => []
    case Some(i) =>
      if 0 < i < |name| - 1 then
        assert name[i..][1..] == name[i + 1..];
        name[i..]
      else []
  }

  /** `Path(p).suffix`: empty, or a well-formed extension that ends the final component
      without being all of it. */
  function Suffix(p: string): (ext: string)
    ensures ext == [] || (IsSuffixText(ext) && '/' !in ext)
    ensures ext != [] ==>
              && |ext| < |FinalComponent(p)|
              && ext == FinalComponent(p)[|FinalComponent(p)| - |ext|..]
  {
    var name := FinalComponent(p);
    var ext := NameSuffix(name);
    AbsentFromTail(name, '/', |name| - |ext|);
    ext
  }

  lemma AbsentFromTail(s: string, c: char, j: nat)
    requires j <= |s| && c !in s
    ensures c !in s[j..]
  {
  }

  /** A final component with no `.` strictly inside it (`Makefile`, `.ogg`, `notes.`)
      has no suffix. */
  lemma SuffixEmpty(p: string)
    requires forall k :: 0 < k < |FinalComponent(p)| - 1 ==> FinalComponent(p)[k] != '.'
    ensures Suffix(p) == []
  {
  }

  /** A well-formed suffix: a dot followed by at least one character and no further dot. */
  predicate IsSuffixText(ext: string) {
    |ext| >= 2 && ext[0] == '.' && '.' !in ext[1..]
  }

  /** On one component, the suffix rule recovers the extension of a non-empty stem. */
  lemma NameSuffixOf(stem: string, ext: string)
    requires stem != []
    requires IsSuffixText(ext)
    ensures NameSuffix(stem + ext) == ext
  {
    var name := stem + ext;
    var i := |stem|;
    assert name[i..] == ext;
    assert name[i + 1..] == ext[1..];
    LastIndexOfUnique(name, '.', i);
  }

  /** `Suffix` recovers the extension of a path made of any text not ending in a
      separator followed by that extension. */
  lemma SuffixOfName(stem: string, ext: string)
    requires stem != [] && stem[|stem| - 1] != '/'
    requires IsSuffixText(ext) && '/' !in ext
    ensures Suffix(stem + ext) == ext
  {
    var front := FinalComponentOfName(stem, ext);
    NameSuffixOf(front, ext);
  }

  /** The final component of `stem + ext` is some non-empty text followed by `ext`. */
  lemma FinalComponentOfName(stem: string, ext: string) returns (front: string)
    requires stem != [] && stem[|stem| - 1] != '/'
    requires '/' !in ext && ext != []
    ensures front != [] && FinalComponent(stem + ext) == front + ext
  {
    var dir := stem[..|stem| - 1];
    var last := [stem[|stem| - 1]];
    var tail := last + ext;
    assert stem + ext == dir + tail;
    assert '/' !in tail;
    FinalComponentEndsWith(dir, tail);
    front := EndsWithSplit(FinalComponent(dir + tail), last, ext);
  }

  lemma EndsWithSplit(name: string, stem: string, ext: string) returns (front: string)
    requires stem != []
    requires |name| >= |stem + ext| && name[|name| - |stem + ext|..] == stem + ext
    ensures front != [] && name == front + ext
  {
    var n := |name|;
    front := name[..n - |ext|];
    assert name == front + name[n - |ext|..];
    assert name[n - |ext|..] == (stem + ext)[|stem|..];
  }

  /** The final component of a path that ends in a separator-free, non-empty text
      ends in that text. */
  lemma FinalComponentEndsWith(dir: string, tail: string)
    requires '/' !in tail && tail != []
    ensures |FinalComponent(dir + tail)| >= |tail|
    ensures FinalComponent(dir + tail)[|FinalComponent(dir + tail)| - |tail|..] == tail
  {
    var p := dir + tail;
    assert p[|p| - 1] == tail[|tail| - 1];
    assert TrimTrailingSlashes(p) == p;
    assert p[|dir|..] == tail;
    match LastIndexOf(p, '/')
    case None =>
    case Some(j) =>
      assert p[j + 1..][|p| - j - 1 - |tail|..] == tail;
  }

  /** With the modelled lowering (`Text.Lower`), which neither creates nor removes dots
      and separators, an extension is well formed exactly when its lowercase form is. */
  lemma LowerSuffixText(ext: string)
    ensures IsSuffixText(Lower(ext)) && '/' !in Lower(ext) <==> IsSuffixText(ext) && '/' !in ext
  {
    var l := Lower(ext);
    forall k | 0 <= k < |ext|
      ensures (l[k] == '/' <==> ext[k] == '/') && (l[k] == '.' <==> ext[k] == '.')
    {
      LowerCharFixes(ext[k], '/');
      LowerCharFixes(ext[k], '.');
    }
    if |ext| > 0 {
      assert forall k :: 1 <= k < |ext| ==> l[1..][k - 1] == l[k] && ext[1..][k - 1] == ext[k];
    }
  }

  lemma {:induction false} TrimTrailingSlashesLower(p: string)
    ensures TrimTrailingSlashes(Lower(p)) == Lower(TrimTrailingSlashes(p))
    decreases |p|
  {
    if |p| > 0 {
      LowerCharFixes(p[|p| - 1], '/');
      LowerSlice(p, 0, |p| - 1);
      if p[|p| - 1] == '/' {
        TrimTrailingSlashesLower(p[..|p| - 1]);
      }
    }
  }

  lemma AfterLastSlashLower(t: string)
    ensures AfterLastSlash(Lower(t)) == Lower(AfterLastSlash(t))
  {
    var l := Lower(t);
    LastIndexOfLower(t, '/');
    var r := LastIndexOf(t, '/');
    AfterLastSlashAt(t, r);
    AfterLastSlashAt(l, r);
    if r.Some? {
      LowerSlice(t, r.value + 1, |t|);
    }
  }

  lemma AfterLastSlashAt(t: string, r: Option<nat>)
    requires LastIndexOf(t, '/') == r
    ensures r.None? ==> AfterLastSlash(t) == t
    ensures r.Some? ==> r.value < |t| && AfterLastSlash(t) == t[r.value + 1..]
  {
  }

  /** The modelled lowering does not move separators, so it lowers the final component. */
  lemma FinalComponentLower(p: string)
    ensures FinalComponent(Lower(p)) == Lower(FinalComponent(p))
  {
    TrimTrailingSlashesLower(p);
    AfterLastSlashLower(TrimTrailingSlashes(p));
  }

  /** The modelled lowering (`Text.Lower`) does not move separators or dots, so taking
      the suffix and lowering commute. This is a fact about the model's lowering, which
      keeps every position; Python's full `str.lower()` can change a string's length. */
  lemma SuffixLower(p: string)
    ensures Suffix(Lower(p)) == Lower(Suffix(p))
  {
    FinalComponentLower(p);
    NameSuffixLower(FinalComponent(p));
  }

  lemma NameSuffixLower(name: string)
    ensures NameSuffix(Lower(name)) == Lower(NameSuffix(name))
  {
    LastIndexOfLower(name, '.');
    match LastIndexOf(name, '.')
    case None =>
    case Some(i) => LowerSlice(name, i, |name|);
  }
}
