/** The upload gate of the web handler and the choice of the file the
    transcription reads: a `.m4a`/`.mp4` upload is converted into a fixed
    WAV file, a `.wav` upload is read where it was saved. Paths follow POSIX
    `os.path.join` and `os.path.splitext`. */
module Upload {

  const UploadFolder: string := "uploads"
  const ConvertedName: string := "converted_audio.wav"

  /** `str.lower` on one character (ASCII letters only). */
  function LowerChar(c: char): char
  {
    if 'A' <= c <= 'Z' then (c as int - 'A' as int + 'a' as int) as char else c
  }

  function Lower(s: string): string
  {
    seq(|s|, i requires 0 <= i < |s| => LowerChar(s[i]))
  }

  predicate EndsWith(s: string, suffix: string)
  {
    |suffix| <= |s| && s[|s| - |suffix|..] == suffix
  }

  /** The gate: the lower-cased file name ends in `.wav`, `.m4a` or `.mp4`. */
  predicate Accepted(filename: string)
  {
    EndsWith(Lower(filename), ".wav") || EndsWith(Lower(filename), ".m4a") || EndsWith(Lower(filename), ".mp4")
  }

  /** The lower-cased name ends in one of the two container extensions that
      the handler converts. */
  predicate ContainerName(filename: string)
  {
    EndsWith(Lower(filename), ".m4a") || EndsWith(Lower(filename), ".mp4")
  }

  /** `os.path.join(a, b)`: an absolute `b` replaces `a`; otherwise a
      separator is inserted unless `a` is empty or already ends in one. */
  function PathJoin(a: string, b: string): (p: string)
    ensures EndsWith(p, b)
    ensures |b| > 0 && b[0] == '/' ==> p == b
  {
    if |b| > 0 && b[0] == '/' then b
    else if a == [] || a[|a| - 1] == '/' then a + b
    else a + "/" + b
  }

  /** `str.rfind(c)`: the last index holding `c`, or -1. */
  function LastIndexOf(s: string, c: char): (i: int)
    ensures -1 <= i < |s|
    ensures i >= 0 ==> s[i] == c
    ensures forall j :: i < j < |s| ==> s[j] != c
  {
    if s == [] then -1
    else if s[|s| - 1] == c then |s| - 1
    else LastIndexOf(s[..|s| - 1], c)
  }

  /** The last path component. */
  function BaseName(p: string): string
  {
    p[LastIndexOf(p, '/') + 1..]
  }

  /** `os.path.splitext(p)[1]`: from the last dot of the last path component
      to the end, unless everything before that dot in the component is dots
      (so ".m4a" and "..mp4" have no extension). */
  function SplitExt(p: string): (ext: string)
    ensures ext == [] || (ext[0] == '.' && EndsWith(p, ext) && '/' !in ext && '.' !in ext[1..])
  {
    var sep := LastIndexOf(p, '/');
    var dot := LastIndexOf(p, '.');
    if dot > sep && exists i :: sep + 1 <= i < dot && p[i] != '.' then p[dot..] else ""
  }

  /** Where an upload is saved. */
  function UploadPath(filename: string): string
  {
    PathJoin(UploadFolder, filename)
  }

  /** Where the converted audio of a `.m4a`/`.mp4` upload is written. */
  function ConvertedPath(): string
  {
    PathJoin(UploadFolder, ConvertedName)
  }

  /** The file the transcription opens for the upload saved at `inputPath`. */
  function WavPath(inputPath: string): (p: string)
    ensures p == inputPath || p == ConvertedPath()
  {
    var ext := Lower(SplitExt(inputPath));
    if ext == ".m4a" || ext == ".mp4" then ConvertedPath() else inputPath
  }

  /** The file name has a real stem: its last path component, minus the
      four-character extension, holds a character other than a dot. */
  predicate NamedStem(filename: string)
  {
    var base := BaseName(filename);
    exists i :: 0 <= i < |base| - 4 && base[i] != '.'
  }

  /** The gate depends only on the last four characters of the name,
      compared without regard to case. */
  lemma {:induction false} AcceptedIffExtension(filename: string)
    ensures Accepted(filename) <==>
              |filename| >= 4 && Lower(filename[|filename| - 4..]) in [".wav", ".m4a", ".mp4"]
  {
    if |filename| >= 4 {
      assert Lower(filename)[|filename| - 4..] == Lower(filename[|filename| - 4..]);
    }
  }

  /** Only the position of a character can be the last index of it. */
  lemma {:induction false} LastIndexOfIs(s: string, c: char, i: int)
    requires -1 <= i < |s|
    requires i >= 0 ==> s[i] == c
    requires forall j :: i < j < |s| ==> s[j] != c
    ensures LastIndexOf(s, c) == i
  {
  }

  /** Lower-casing never produces or removes a dot or a separator. */
  lemma {:induction false} LowerCharKeepsPunctuation(c: char)
    ensures LowerChar(c) == '.' <==> c == '.'
    ensures LowerChar(c) == '/' <==> c == '/'
  {
  }

  /** The last occurrence in a concatenation is in its second part when
      there is one there. */
  lemma {:induction false} LastIndexOfAppend(a: string, b: string, c: char)
    ensures LastIndexOf(a + b, c) ==
              if LastIndexOf(b, c) >= 0 then |a| + LastIndexOf(b, c) else LastIndexOf(a, c)
  {
    var s := a + b;
    var j := LastIndexOf(b, c);
    forall k | |a| <= k < |s| ensures s[k] == b[k - |a|] { }
    if j >= 0 {
      LastIndexOfIs(s, c, |a| + j);
    } else {
      var i := LastIndexOf(a, c);
      forall k | i < k < |s| ensures s[k] != c {
        if k < |a| { assert s[k] == a[k]; }
      }
      LastIndexOfIs(s, c, i);
    }
  }

  /** Saving under the upload folder keeps the last path component. */
  lemma {:induction false} UploadPathKeepsBaseName(filename: string)
    ensures EndsWith(UploadPath(filename), filename)
    ensures BaseName(UploadPath(filename)) == BaseName(filename)
  {
    var p := UploadPath(filename);
    if !(|filename| > 0 && filename[0] == '/') {
      var folder := UploadFolder + "/";
      assert p == folder + filename;
      LastIndexOfIs(folder, '/', 7);
      LastIndexOfAppend(folder, filename, '/');
      var j := LastIndexOf(filename, '/');
      assert p[LastIndexOf(p, '/') + 1..] == filename[j + 1..];
    }
  }

  /** The upload path of an accepted name ends in the accepted extension,
      whatever the case: the dot is the last dot of the path and no
      separator follows it. */
  lemma {:induction false} AcceptedPathShape(p: string, suffix: string)
    requires suffix in [".wav", ".m4a", ".mp4"]
    requires EndsWith(Lower(p), suffix)
    ensures LastIndexOf(p, '.') == |p| - 4
    ensures LastIndexOf(p, '/') < |p| - 4
    ensures Lower(p[|p| - 4..]) == suffix
  {
    var n := |p|;
    var tail := p[n - 4..];
    assert Lower(p)[n - 4..] == Lower(tail);
    TailPunctuation(tail, suffix);
    forall j | n - 4 <= j < n
      ensures (p[j] == '.') == (j == n - 4) && p[j] != '/'
    {
      assert p[j] == tail[j - (n - 4)];
    }
    LastIndexOfIs(p, '.', n - 4);
  }

  /** In a four-character name that lower-cases to an accepted extension,
      the only dot is the first character and there is no separator. */
  lemma {:induction false} TailPunctuation(tail: string, suffix: string)
    requires suffix in [".wav", ".m4a", ".mp4"]
    requires Lower(tail) == suffix
    ensures |tail| == 4
    ensures forall j :: 0 <= j < 4 ==> (tail[j] == '.') == (j == 0) && tail[j] != '/'
  {
    assert suffix[0] == '.' && '.' !in suffix[1..] && '/' !in suffix;
    forall j | 0 <= j < 4
      ensures (tail[j] == '.') == (j == 0) && tail[j] != '/'
    {
      assert LowerChar(tail[j]) == suffix[j];
      LowerCharKeepsPunctuation(tail[j]);
      if j > 0 { assert suffix[j] in suffix[1..]; }
    }
  }

  /** Saving keeps an accepted extension at the end of the path. */
  lemma {:induction false} UploadPathKeepsSuffix(filename: string, suffix: string)
    requires |suffix| == 4 && EndsWith(Lower(filename), suffix)
    ensures EndsWith(Lower(UploadPath(filename)), suffix)
  {
    var p := UploadPath(filename);
    UploadPathKeepsBaseName(filename);
    var off := |p| - |filename|;
    assert p[off..] == filename;
    assert Lower(p)[|p| - 4..] == Lower(filename)[|filename| - 4..];
  }

  /** `splitext` finds the accepted extension of a path exactly when the
      last component has a real stem. */
  lemma {:induction false} SplitExtOfAcceptedPath(p: string, suffix: string)
    requires suffix in [".wav", ".m4a", ".mp4"]
    requires EndsWith(Lower(p), suffix)
    ensures Lower(SplitExt(p)) == if NamedStem(p) then suffix else ""
  {
    AcceptedPathShape(p, suffix);
    var sep := LastIndexOf(p, '/');
    var dot := |p| - 4;
    var base := BaseName(p);
    assert base == p[sep + 1..];
    assert (exists i :: sep + 1 <= i < dot && p[i] != '.') <==> NamedStem(p) by {
      if exists i :: sep + 1 <= i < dot && p[i] != '.' {
        var i :| sep + 1 <= i < dot && p[i] != '.';
        assert base[i - (sep + 1)] == p[i];
      }
      if NamedStem(p) {
        var i :| 0 <= i < |base| - 4 && base[i] != '.';
        assert p[i + sep + 1] == base[i];
      }
    }
  }

  /** A name ending in ".wav" ends in neither container extension. */
  lemma {:induction false} WavIsNotContainer(s: string)
    requires EndsWith(s, ".wav")
    ensures !EndsWith(s, ".m4a") && !EndsWith(s, ".mp4")
  {
    assert s[|s| - 4..][1] == 'w';
  }

  /** The file read for a saved upload whose lower-cased path ends in `suffix`. */
  lemma {:induction false} WavPathBySuffix(p: string, suffix: string)
    requires suffix in [".wav", ".m4a", ".mp4"]
    requires EndsWith(Lower(p), suffix)
    ensures WavPath(p) == if suffix != ".wav" && NamedStem(p) then ConvertedPath() else p
  {
    SplitExtOfAcceptedPath(p, suffix);
    var ext := Lower(SplitExt(p));
    if !NamedStem(p) {
      assert ext == "";
    } else if suffix == ".wav" {
      assert ext == ".wav" && ext[1] == 'w';
    } else {
      assert ext == suffix;
    }
  }

  /** The file read for an upload whose lower-cased name ends in `suffix`. */
  lemma {:induction false} RoutingBySuffix(filename: string, suffix: string)
    requires suffix in [".wav", ".m4a", ".mp4"]
    requires EndsWith(Lower(filename), suffix)
    ensures WavPath(UploadPath(filename)) ==
              if suffix != ".wav" && NamedStem(filename) then ConvertedPath() else UploadPath(filename)
  {
    UploadPathKeepsBaseName(filename);
    UploadPathKeepsSuffix(filename, suffix);
    WavPathBySuffix(UploadPath(filename), suffix);
  }

  /** The file the transcription reads for an accepted upload: the converted
      file exactly when the name ends in `.m4a`/`.mp4` and has a real stem;
      otherwise (every `.wav` upload, and a bare ".m4a"/".mp4") the saved
      upload itself. */
  lemma {:induction false} RoutingOfAcceptedUpload(filename: string)
    requires Accepted(filename)
    ensures WavPath(UploadPath(filename)) ==
              if ContainerName(filename) && NamedStem(filename) then ConvertedPath() else UploadPath(filename)
  {
    if EndsWith(Lower(filename), ".wav") {
      RoutingBySuffix(filename, ".wav");
      WavIsNotContainer(Lower(filename));
    } else if EndsWith(Lower(filename), ".m4a") {
      RoutingBySuffix(filename, ".m4a");
    } else {
      RoutingBySuffix(filename, ".mp4");
    }
  }

  /** A bare ".m4a" passes the gate, but has no extension for `splitext`, so
      it is read as if it were WAV audio, without conversion. */
  lemma BareContainerNameIsNotConverted()
    ensures Accepted(".m4a") && ContainerName(".m4a")
    ensures WavPath(UploadPath(".m4a")) == "uploads/.m4a"
  {
    var name := ".m4a";
    assert Lower(name) == name by {
      forall i | 0 <= i < 4 ensures LowerChar(name[i]) == name[i] { }
    }
    assert UploadPath(name) == "uploads/.m4a";
    LastIndexOfIs(name, '/', -1);
    assert !NamedStem(name);
    RoutingOfAcceptedUpload(name);
  }
}
