/** Worked lookups of `fromExt`, each over every stem of the given shape. */
module MimeExamples {
  import opened Wrappers
  import opened Paths
  import opened Mime

  /** A stem without `/` or `.`: a plain file name before its extension. */
  predicate PlainStem(stem: string)
  {
    stem != [] && forall j | 0 <= j < |stem| :: stem[j] != '/' && stem[j] != '.'
  }

  /** The lookup key of `stem` followed by `ext`, when `ext` is `.` and three letters. */
  lemma ExtKeyOfStem(stem: string, ext: string)
    requires PlainStem(stem)
    requires |ext| == 4 && ext[0] == '.' && forall j | 1 <= j < 4 :: ext[j] != '/' && ext[j] != '.'
    ensures ExtKey(stem + ext) == Lower(ext[1..])
  {
    var name := stem + ext;
    assert forall j | 0 <= j < |name| :: name[j] != '/' by {
      forall j | 0 <= j < |name| ensures name[j] != '/' {
        if j >= |stem| { assert name[j] == ext[j - |stem|]; }
      }
    }
    assert name[|stem| + 1..] == ext[1..];
    ExtKeyOfPlainName(name, |stem|);
  }

  /** The lookup of `stem` followed by `ext` is the lookup of the key `ext` gives. */
  lemma FromExtOfStem(stem: string, ext: string, key: string)
    requires PlainStem(stem)
    requires |ext| == 4 && ext[0] == '.' && forall j | 1 <= j < 4 :: ext[j] != '/' && ext[j] != '.'
    requires Lower(ext[1..]) == key
    ensures FromExt(stem + ext) == Lookup(key)
  {
    ExtKeyOfStem(stem, ext);
  }

  lemma LookupJpg()
    ensures Lookup("jpg") == Some(Data(Image, Jpeg))
  {
  }

  lemma LookupTxt()
    ensures Lookup("txt") == None
  {
  }

  lemma LowerJpg()
    ensures Lower("JPG") == "jpg"
  {
  }

  /** Case is ignored, and `jpg` is JPEG: `photo.JPG` is image/jpeg. */
  lemma FromExtUpperCase(stem: string)
    requires PlainStem(stem)
    ensures FromExt(stem + ".JPG") == Some(Data(Image, Jpeg))
  {
    LowerJpg();
    FromExtOfStem(stem, ".JPG", "jpg");
    LookupJpg();
  }

  /** An extension in neither table has no MIME type: `notes.txt` has none. */
  lemma FromExtUnknown(stem: string)
    requires PlainStem(stem)
    ensures FromExt(stem + ".txt") == None
  {
    LowerOfLower("txt");
    FromExtOfStem(stem, ".txt", "txt");
    LookupTxt();
  }

  /** `mp4` is MPEG-4 video, and the directory is ignored. */
  lemma FromExtVideo()
    ensures FromExt("/media/clip.mp4") == Some(Data(Video, Mpeg4))
  {
    LastIndexOfIs("/media/clip.mp4", '/', 6);
    assert "/media/clip.mp4"[7..] == "clip.mp4";
    LastIndexOfIs("clip.mp4", '.', 4);
    assert "clip.mp4"[4..] == ".mp4";
    assert Lower(".mp4") == ".mp4";
    assert ".mp4"[1..] == "mp4";
  }

  /** A name that is a dot and a plain stem has no extension. */
  lemma DotFileExtname(stem: string)
    requires PlainStem(stem)
    ensures Extname("." + stem) == ""
  {
    var name := "." + stem;
    assert forall j | 0 <= j < |name| :: name[j] != '/' by {
      forall j | 0 <= j < |name| ensures name[j] != '/' {
        if j >= 1 { assert name[j] == stem[j - 1]; }
      }
    }
    BasenameOfPlain(name);
    LastIndexOfIs(name, '.', 0);
  }

  lemma LookupEmpty()
    ensures Lookup("") == None
  {
  }

  /** A dot file has no extension, so no MIME type: `.png` has none. */
  lemma FromExtDotFile(stem: string)
    requires PlainStem(stem)
    ensures FromExt("." + stem) == None
  {
    DotFileExtname(stem);
    LookupEmpty();
  }
}
