/**
 The upload form's model-file validator (`AssetForm.clean_file`): the
 extension of the uploaded file's name, as `os.path.splitext` finds it,
 lower-cased, must be `.glb` or `.gltf`; otherwise the form reports a
 validation error and returns nothing.
 */
module Forms {
  import opened PosixPath

  /** Lower-casing of one character; only ASCII letters change. */
  function LowerChar(c: char): char {
    if 'A' <= c <= 'Z' then (c as int - 'A' as int + 'a' as int) as char else c
  }

  /** `str.lower` restricted to ASCII: each character through `LowerChar`. */
  function Lower(s: string): string {
    seq(|s|, i requires 0 <= i < |s| => LowerChar(s[i]))
  }

  /** The extensions the form lets through, already lower-case. */
  const ValidExtensions: seq<string> := [".glb", ".gltf"]

  const UnsupportedFormatMessage: string :=
    "Неподдерживаемый формат. Пожалуйста, загрузите .glb или .gltf"

  /** An uploaded file: its client-supplied name and its bytes. */
  datatype UploadedFile = UploadedFile(name: string, content: seq<bv8>)

  /** Outcome of `clean_file`: the cleaned value, or the raised `ValidationError`. */
  datatype CleanResult = Cleaned(file: UploadedFile) | ValidationError(message: string)

  /** The test `clean_file` applies to the file name. */
  predicate Accepts(name: string) {
    Lower(Ext(name)) in ValidExtensions
  }

  /**
   Independent description of an acceptable name: it ends in `e` up to
   letter case, and what precedes that ending still has a final path
   component that is not made only of dots.
   */
  predicate SuffixMatches(name: string, e: string) {
    && |e| <= |name|
    && Lower(name[|name| - |e|..]) == e
    && ProperStem(name[..|name| - |e|])
  }

  predicate HasModelSuffix(name: string) {
    SuffixMatches(name, ".glb") || SuffixMatches(name, ".gltf")
  }

  /** `clean_file`: the file itself when its extension is accepted, the validation error otherwise. */
  function CleanFile(file: UploadedFile): (r: CleanResult)
    ensures r.Cleaned? <==> HasModelSuffix(file.name)
    ensures r.Cleaned? ==> r.file == file
    ensures r.ValidationError? ==> r.message == UnsupportedFormatMessage
  {
    AcceptsIff(file.name);
    if Accepts(file.name) then Cleaned(file) else ValidationError(UnsupportedFormatMessage)
  }

  /** A character whose lower-case form is a dot or a separator is that character. */
  lemma LowerCharKeepsSeparators(c: char)
    ensures LowerChar(c) == '.' <==> c == '.'
    ensures LowerChar(c) == '/' <==> c == '/'
  {
  }

  /** Lower-casing commutes with taking a suffix. */
  lemma LowerSuffix(s: string, k: nat)
    requires k <= |s|
    ensures Lower(s[k..]) == Lower(s)[k..]
  {
  }

  /** A suffix whose lower-case form is a valid extension is shaped like an extension. */
  lemma ValidExtensionShape(t: string)
    requires Lower(t) in ValidExtensions
    ensures |t| > 0 && t[0] == '.'
    ensures forall k :: 0 < k < |t| ==> 'a' <= LowerChar(t[k]) <= 'z'
    ensures forall k :: 0 < k < |t| ==> t[k] != '.' && t[k] != '/'
  {
    var e := Lower(t);
    assert e == ".glb" || e == ".gltf";
    assert forall k :: 0 < k < |e| ==> 'a' <= e[k] <= 'z';
    assert LowerChar(t[0]) == e[0] == '.';
    LowerCharKeepsSeparators(t[0]);
    forall k | 0 < k < |t|
      ensures 'a' <= LowerChar(t[k]) <= 'z'
    {
      assert Lower(t)[k] == LowerChar(t[k]);
    }
  }

  lemma SuffixMatchesAccepts(name: string, e: string)
    requires e in ValidExtensions && SuffixMatches(name, e)
    ensures Accepts(name)
  {
    var m := |name| - |e|;
    var root := name[..m];
    var t := name[m..];
    assert root + t == name;
    ValidExtensionShape(t);
    ExtOfAppend(root, t);
  }

  lemma AcceptsSuffixMatches(name: string)
    requires Accepts(name)
    ensures HasModelSuffix(name)
  {
    var ext := Ext(name);
    var root := SplitExt(name).0;
    var e := Lower(ext);
    assert ext != [];
    ExtRootProper(name);
    assert root + ext == name;
    assert name[..|name| - |e|] == root;
    assert name[|name| - |e|..] == ext;
    assert SuffixMatches(name, e);
  }

  /**
   A name is accepted exactly when it ends in `.glb` or `.gltf`, in any
   letter case, after a final component that is not all dots.
   */
  lemma AcceptsIff(name: string)
    ensures Accepts(name) <==> HasModelSuffix(name)
  {
    if Accepts(name) {
      AcceptsSuffixMatches(name);
    }
    if SuffixMatches(name, ".glb") {
      SuffixMatchesAccepts(name, ".glb");
    }
    if SuffixMatches(name, ".gltf") {
      SuffixMatchesAccepts(name, ".gltf");
    }
  }

  /** Names that differ only in the case of their letters are accepted or rejected together. */
  lemma AcceptsCaseInsensitive(a: string, b: string)
    requires Lower(a) == Lower(b)
    ensures Accepts(a) <==> Accepts(b)
  {
    forall i | 0 <= i < |a|
      ensures (a[i] == '.' <==> b[i] == '.') && (a[i] == '/' <==> b[i] == '/')
    {
      assert Lower(a)[i] == LowerChar(a[i]) && Lower(b)[i] == LowerChar(b[i]);
      LowerCharKeepsSeparators(a[i]);
      LowerCharKeepsSeparators(b[i]);
    }
    ExtStartSameSeparators(a, b);
    var k := ExtStart(a);
    LowerSuffix(a, k);
    LowerSuffix(b, k);
  }

  /** In particular, lower-casing the whole name never changes the verdict. */
  lemma AcceptsLowered(name: string)
    ensures Accepts(Lower(name)) <==> Accepts(name)
  {
    assert Lower(Lower(name)) == Lower(name);
    AcceptsCaseInsensitive(Lower(name), name);
  }

  /**
   Only the text after the last dot counts: appending an extension-shaped
   suffix to a proper root makes the verdict that of the suffix alone,
   whatever dots the root contains.
   */
  lemma LastSuffixDecides(root: string, ext: string)
    requires ProperStem(root)
    requires |ext| > 0 && ext[0] == '.'
    requires forall k :: 0 < k < |ext| ==> ext[k] != '.' && ext[k] != '/'
    ensures Accepts(root + ext) <==> Lower(ext) in ValidExtensions
  {
    ExtOfAppend(root, ext);
  }

  /** A final component without a dot has no extension, so the name is rejected. */
  lemma NoDotRejected(file: UploadedFile)
    requires '.' !in Basename(file.name)
    ensures CleanFile(file) == ValidationError(UnsupportedFormatMessage)
  {
    NoDotExtEmpty(file.name);
  }

  /** A dot-file such as `.glb` or `models/..gltf` has no extension, so it is rejected. */
  lemma DotFileRejected(dir: string, dots: string, rest: string, content: seq<bv8>)
    requires dir == [] || dir[|dir| - 1] == '/'
    requires forall k :: 0 <= k < |dots| ==> dots[k] == '.'
    requires '.' !in rest && '/' !in rest
    ensures CleanFile(UploadedFile(dir + dots + rest, content)).ValidationError?
  {
    DotFileExtEmpty(dir, dots, rest);
  }
}

/** Worked cases of the validator, for any proper stem such as `model` or `dir/a`. */
module FormsExamples {
  import opened PosixPath
  import opened Forms

  /** A stem whose final component is not all dots keeps that property when more text is appended. */
  lemma StemAppend(stem: string, t: string)
    requires ProperStem(stem) && '/' !in t
    ensures ProperStem(stem + t)
  {
    RFindAppend(stem, t, '/');
    var sep := RFind(stem, '/');
    var w :| sep + 1 <= w < |stem| && stem[w] != '.';
    assert (stem + t)[w] != '.';
  }

  /** `M.GLB` and `m.GlTf` are accepted: letter case in the extension does not matter. */
  lemma ExampleCase(stem: string)
    requires ProperStem(stem)
    ensures Accepts(stem + ".GLB") && Accepts(stem + ".GlTf")
  {
    LastSuffixDecides(stem, ".GLB");
    assert Lower(".GLB") == ".glb";
    LastSuffixDecides(stem, ".GlTf");
    assert Lower(".GlTf") == ".gltf";
  }

  /** `a.zip.glb` is accepted: the inner `.zip` does not count. */
  lemma ExampleLastDotAccepted(stem: string)
    requires ProperStem(stem)
    ensures Accepts(stem + ".zip" + ".glb")
  {
    StemAppend(stem, ".zip");
    LastSuffixDecides(stem + ".zip", ".glb");
    assert Lower(".glb") == ".glb";
  }

  /** `a.glb.zip` is rejected: the inner `.glb` does not count. */
  lemma ExampleLastDotRejected(stem: string)
    requires ProperStem(stem)
    ensures !Accepts(stem + ".glb" + ".zip")
  {
    StemAppend(stem, ".glb");
    LastSuffixDecides(stem + ".glb", ".zip");
    assert Lower(".zip")[1] == 'z';
  }
}
