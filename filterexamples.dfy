/** The examples of the filter tests (src/main/classify/filter.test.ts, src/render/load/filter.test.ts). */
module FilterExamples {
  import opened Paths
  import opened Mime
  import opened Filters

  /** `exact` is named `ExactFilter`. */
  lemma KindNameExact()
    ensures KindName("exact") == "ExactFilter"
  {
    assert "exact"[1..] == "xact";
  }

  /** `regExp` is named `RegExpFilter`: only the first character is upper-cased. */
  lemma KindNameRegExp()
    ensures KindName("regExp") == "RegExpFilter"
  {
    assert "regExp"[1..] == "egExp";
  }

  /** `mimeSubtype` is named `MimeSubtypeFilter`. */
  lemma KindNameMimeSubtype()
    ensures KindName("mimeSubtype") == "MimeSubtypeFilter"
  {
    assert "mimeSubtype"[1..] == "imeSubtype";
  }

  /** The exact filter example of src/main/classify/filter.test.ts: a name other than the target, such as `otheritem`, is accepted, ... */
  lemma ExactAccepts(u: string)
    requires NoSlash(u) && u != "someitem"
    ensures ClassifyAccepts(Exact("someitem"), FsFile(u))
  {
    ClassifyPlainName(Exact("someitem"), u);
  }

  /** ... and the target itself, such as `someitem`, is rejected. */
  lemma ExactRejects(target: string)
    requires NoSlash(target)
    ensures !ClassifyAccepts(Exact(target), FsFile(target))
  {
    ClassifyPlainName(Exact(target), target);
  }

  /** The prefix filter example: `otherprefix` followed by anything, such as `item`, is accepted, ... */
  lemma PrefixAccepts(rest: string)
    requires NoSlash(rest)
    ensures ClassifyAccepts(Prefix("someprefix"), FsFile("otherprefix" + rest))
  {
    var u := "otherprefix" + rest;
    NoSlashConcat("otherprefix", rest);
    ClassifyPlainName(Prefix("someprefix"), u);
    assert u[0] != "someprefix"[0];
  }

  /** ... and `someprefix` followed by anything is rejected. */
  lemma PrefixRejects(rest: string)
    requires NoSlash(rest)
    ensures !ClassifyAccepts(Prefix("someprefix"), FsFile("someprefix" + rest))
  {
    var u := "someprefix" + rest;
    NoSlashConcat("someprefix", rest);
    ClassifyPlainName(Prefix("someprefix"), u);
    assert u[..10] == "someprefix";
  }

  /** The suffix filter example: anything, such as `item`, followed by `othersuffix` is accepted, ... */
  lemma SuffixAccepts(item: string)
    requires NoSlash(item)
    ensures ClassifyAccepts(Suffix("somesuffix"), FsFile(item + "othersuffix"))
  {
    var u := item + "othersuffix";
    NoSlashConcat(item, "othersuffix");
    ClassifyPlainName(Suffix("somesuffix"), u);
    assert u[|u| - 10] == "othersuffix"[1];
  }

  /** ... and anything followed by `somesuffix` is rejected. */
  lemma SuffixRejects(item: string)
    requires NoSlash(item)
    ensures !ClassifyAccepts(Suffix("somesuffix"), FsFile(item + "somesuffix"))
  {
    var u := item + "somesuffix";
    NoSlashConcat(item, "somesuffix");
    ClassifyPlainName(Suffix("somesuffix"), u);
    assert u[|u| - 10..] == "somesuffix";
  }

  /** The regular-expression filter example, `^[0-9]+$`: a name that starts with a letter, such as `characters`, is accepted, ... */
  lemma RegExpAccepts(u: string)
    requires NoSlash(u) && u != [] && 'a' <= u[0] <= 'z'
    ensures ClassifyAccepts(RegExp(AllDigits), FsFile(u))
  {
    ClassifyPlainName(RegExp(AllDigits), u);
  }

  /** ... and every name of digits only, such as `12345`, is rejected. */
  lemma RegExpRejects(u: string)
    requires AllDigits(u)
    ensures !ClassifyAccepts(RegExp(AllDigits), FsFile(u))
  {
    ClassifyPlainName(RegExp(AllDigits), u);
  }

  /** The basename, not the whole URL, is compared. */
  lemma ExactUsesBasename()
    ensures !ClassifyAccepts(Exact("a.png"), FsFile("/pictures/a.png"))
  {
    LastIndexOfIs("/pictures/a.png", '/', 9);
    assert "/pictures/a.png"[10..] == "a.png";
  }

  /** The accept and reject examples of src/render/load/filter.test.ts. */
  lemma LoadExamples()
    ensures var item := (m: Data) => LoadedItem("testName", m, 20, "testObjectURL");
            && LoadAccepts(MimeTypeFilter(Image), item(Data(Video, Mpeg4)))
            && !LoadAccepts(MimeTypeFilter(Image), item(Data(Image, Jpeg)))
            && LoadAccepts(MimeSubtypeFilter(Png), item(Data(Image, Jpeg)))
            && !LoadAccepts(MimeSubtypeFilter(Png), item(Data(Image, Png)))
  {
  }
}
