/** The output file name `download_audio` derives from the extractor's
    prepared file name: everything before the last `.`, then `.mp3`. */
module Paths {
  import opened Strings

  const Mp3Ext := ".mp3"

  /** `name.rsplit(".", 1)[0]`: the whole name when it has no dot, otherwise
      the part before its last dot. */
  function Stem(name: string): (r: string)
    ensures '.' !in name ==> r == name
    ensures '.' in name ==> |r| < |name| && r == name[..|r|] && name[|r|] == '.' && '.' !in name[|r| + 1..]
  {
    match LastIndexOf(name, '.')
    case None => name
    case Some(k) => name[..k]
  }

  /** `f"{base_filename}.mp3"`: the name always ends in `.mp3`, and what
      precedes that is the prepared name cut at its last dot, or all of it
      when it has none. */
  function Mp3Path(name: string): (r: string)
    ensures EndsWith(r, Mp3Ext)
    ensures var stem := r[..|r| - |Mp3Ext|];
            && ('.' !in name ==> stem == name)
            && ('.' in name ==> |stem| < |name| && stem == name[..|stem|] && name[|stem|] == '.' && '.' !in name[|stem| + 1..])
  {
    var r := Stem(name) + Mp3Ext;
    assert r[..|r| - |Mp3Ext|] == Stem(name);
    r
  }

  /** The last extension is what gets replaced: `base.ext` becomes
      `base.mp3` whatever dots `base` holds. */
  lemma ReplacesLastExtension(base: string, ext: string)
    requires '.' !in ext
    ensures Mp3Path(base + "." + ext) == base + Mp3Ext
  {
    var name := base + "." + ext;
    assert name[|base|] == '.';
    assert name[|base| + 1..] == ext;
    LastIndexOfUnique(name, '.', |base|);
    assert name[..|base|] == base;
  }

  /** A name that already ends in `.mp3` is kept as it is. */
  lemma Mp3PathKeepsMp3(name: string)
    requires EndsWith(name, Mp3Ext)
    ensures Mp3Path(name) == name
  {
    var base := name[..|name| - |Mp3Ext|];
    assert name == base + "." + "mp3";
    ReplacesLastExtension(base, "mp3");
  }

  /** Deriving the output name twice gives the same name as deriving it once. */
  lemma Mp3PathIdempotent(name: string)
    ensures Mp3Path(Mp3Path(name)) == Mp3Path(name)
  {
    Mp3PathKeepsMp3(Mp3Path(name));
  }
}
