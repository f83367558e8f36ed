/** Archive entry naming: `fileName.replace(/\.[^/.]+$/, ".jpg")`. The
    pattern matches a dot followed by one or more characters that are neither
    `.` nor `/`, running to the end of the name; it is replaced by `.jpg`. */
module FileNames {
  import opened Common

  /** Position `p` starts the match of `/\.[^/.]+$/` in `name`. */
  predicate IsExtensionDot(name: string, p: int) {
    && 0 <= p < |name| - 1
    && name[p] == '.'
    && forall k :: p < k < |name| ==> name[k] != '.' && name[k] != '/'
  }

  predicate HasExtension(name: string) {
    exists p :: 0 <= p < |name| && IsExtensionDot(name, p)
  }

  /** At most one position can start a match: a later dot would break the
      character class of an earlier one. */
  lemma ExtensionDotUnique(name: string, p: int, q: int)
    requires IsExtensionDot(name, p) && IsExtensionDot(name, q)
    ensures p == q
  {
  }

  /** Scan backwards from index `i`, knowing `name[i..]` holds neither `.` nor `/`. */
  function FindExtensionDot(name: string, i: nat): (r: Option<nat>)
    requires i <= |name|
    requires forall k :: i <= k < |name| ==> name[k] != '.' && name[k] != '/'
    ensures r.Some? ==> IsExtensionDot(name, r.value)
    ensures r.None? ==> forall p :: 0 <= p < i ==> !IsExtensionDot(name, p)
    decreases i
  {
    if i == 0 then None
    else if name[i - 1] == '.' then (if i < |name| then Some(i - 1) else None)
    else if name[i - 1] == '/' then None
    else FindExtensionDot(name, i - 1)
  }

  /** Where the final extension starts, if the name has one. */
  function ExtensionDot(name: string): (r: Option<nat>)
    ensures r.Some? ==> IsExtensionDot(name, r.value)
    ensures r.None? <==> !HasExtension(name)
  {
    FindExtensionDot(name, |name|)
  }

  /** The archive entry name for a result's `fileName`. */
  function ToJpgName(name: string): (r: string)
    ensures HasExtension(name) ==>
      exists p :: 0 <= p < |name| && IsExtensionDot(name, p) && r == name[..p] + ".jpg"
    ensures !HasExtension(name) ==> r == name
  {
    match ExtensionDot(name)
    case Some(p) => name[..p] + ".jpg"
    case None => name
  }

  /** A renamed name has the extension `jpg`, and renaming it again changes
      nothing. */
  lemma ToJpgNameIdempotent(name: string)
    ensures ToJpgName(ToJpgName(name)) == ToJpgName(name)
  {
    var r := ToJpgName(name);
    if HasExtension(name) {
      var p :| IsExtensionDot(name, p) && r == name[..p] + ".jpg";
      assert IsExtensionDot(name, p);
      assert r[p..] == ".jpg";
      assert IsExtensionDot(r, p);
      var r2 := ToJpgName(r);
      var q :| IsExtensionDot(r, q) && r2 == r[..q] + ".jpg";
      ExtensionDotUnique(r, p, q);
      assert r[..p] == name[..p];
    }
  }

  /** Renaming keeps everything in front of the final extension and never
      touches a name without one (a trailing dot, or a dot before a `/`). */
  lemma ToJpgNameKeepsStem(name: string, p: int)
    requires IsExtensionDot(name, p)
    ensures ToJpgName(name) == name[..p] + ".jpg"
  {
    var q :| IsExtensionDot(name, q) && ToJpgName(name) == name[..q] + ".jpg";
    ExtensionDotUnique(name, p, q);
  }

  /** Names with a final extension: only that extension is replaced. */
  lemma ToJpgNameExamples()
    ensures ToJpgName("photo.png") == "photo.jpg"
    ensures ToJpgName("cat.jpeg") == "cat.jpg"
    ensures ToJpgName("archive.tar.gz") == "archive.tar.jpg"
    ensures ToJpgName(".hidden") == ".jpg"
  {
    ToJpgNameKeepsStem("photo.png", 5);
    ToJpgNameKeepsStem("cat.jpeg", 3);
    ToJpgNameKeepsStem("archive.tar.gz", 11);
    ToJpgNameKeepsStem(".hidden", 0);
  }

  /** Names the pattern does not match: no dot, a trailing dot, or a dot
      that belongs to a directory part. */
  lemma UnchangedNameExamples()
    ensures ToJpgName("README") == "README"
    ensures ToJpgName("name.") == "name."
    ensures ToJpgName("v1.2/photo") == "v1.2/photo"
  {
    assert !HasExtension("README") by {
      forall p ensures !IsExtensionDot("README", p) {
        if 0 <= p < 5 { assert "README"[p] != '.'; }
      }
    }
    assert !HasExtension("name.") by {
      forall p ensures !IsExtensionDot("name.", p) {
        if 0 <= p < 4 { assert "name."[4] == '.'; }
      }
    }
    assert !HasExtension("v1.2/photo") by {
      forall p ensures !IsExtensionDot("v1.2/photo", p) {
        if 0 <= p < 4 { assert "v1.2/photo"[4] == '/'; }
        else if 4 <= p < 9 { assert "v1.2/photo"[p] != '.'; }
      }
    }
  }
}
