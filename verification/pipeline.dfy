/** How the programs agree on names: the parser writes `{domain}__{base}__{lang}`
    with the extensions `.txt` and `.json`; the document router rebuilds that
    name from the metadata and finds the `.json` file by replacing `.txt`;
    the chunk indexer recovers the domain from the part before the first
    `__`. */
module Pipeline {
  import opened Wrappers
  import opened Py
  import Parser
  import CoreMemory
  import MetaRouter

  /** The name the document router rebuilds from a parsed book's metadata is
      the name of the text file the parser wrote for it. */
  lemma WrittenNameIsRead(io: Parser.Io, path: string, domain: string, h: string)
    requires Parser.Prepare(io, path, domain, h).Some?
    ensures var out := Parser.Prepare(io, path, domain, h).value;
      MetaRouter.DocName(Parser.View(out.meta)) == Parser.TxtName(out.stem)
  {
  }

  /** A normalised file name holds no dot. */
  lemma NormalizedHasNoDot(name: string)
    ensures '.' !in Parser.NormalizeFilename(name)
  {
  }

  /** A stem of dot-free parts names its metadata file by replacing `.txt`. */
  lemma StemPair(domain: string, base: string, lang: string)
    requires '.' !in domain && '.' !in base && '.' !in lang
    ensures MetaRouter.MetaName(Parser.TxtName(Parser.Stem(domain, base, lang))) == Parser.JsonName(Parser.Stem(domain, base, lang))
  {
    var stem := Parser.Stem(domain, base, lang);
    assert '.' !in stem by {
      assert stem == domain + "__" + base + "__" + lang;
    }
    MetaRouter.MetaNameOfStem(stem);
  }

  /** The chunk indexer's domain of a stem's text file is the stem's domain. */
  lemma StemDomain(domain: string, base: string, lang: string)
    requires !Contains(domain, "__") && (|domain| > 0 ==> domain[|domain| - 1] != '_')
    ensures CoreMemory.DomainOf(SplitExtRoot(Parser.TxtName(Parser.Stem(domain, base, lang)))) == domain
  {
    var stem := Parser.Stem(domain, base, lang);
    var rest := base + "__" + lang;
    assert stem == domain + "__" + rest;
    assert stem[|domain|] != '.';
    SplitExtRootOf(stem, ".txt");
    CoreMemory.DomainOfStem(domain, rest);
  }

  /** When neither the domain nor the language holds a dot, the corpus loader
      pairs the parser's text file with the parser's metadata file. */
  lemma WrittenPairLoads(io: Parser.Io, path: string, domain: string, h: string)
    requires Parser.Prepare(io, path, domain, h).Some?
    requires '.' !in domain && '.' !in Parser.Prepare(io, path, domain, h).value.meta.language
    ensures var out := Parser.Prepare(io, path, domain, h).value;
      MetaRouter.MetaName(Parser.TxtName(out.stem)) == Parser.JsonName(out.stem)
  {
    var out := Parser.Prepare(io, path, domain, h).value;
    NormalizedHasNoDot(SplitExtRoot(Parser.BaseName(path)));
    StemPair(domain, out.meta.filename, out.meta.language);
  }

  /** When the domain holds no `__` and does not end in `_`, the chunk
      indexer derives the parser's domain from the text file's name. */
  lemma ChunkDomainRecovered(io: Parser.Io, path: string, domain: string, h: string)
    requires Parser.Prepare(io, path, domain, h).Some?
    requires !Contains(domain, "__") && (|domain| > 0 ==> domain[|domain| - 1] != '_')
    ensures var out := Parser.Prepare(io, path, domain, h).value;
      CoreMemory.DomainOf(SplitExtRoot(Parser.TxtName(out.stem))) == domain
  {
    var out := Parser.Prepare(io, path, domain, h).value;
    StemDomain(domain, out.meta.filename, out.meta.language);
  }
}
