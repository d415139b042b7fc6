/** Records exchanged between the programs through JSON files in the data and
    memory directories. */
module Records {
  import opened Wrappers

  /** What a reader sees of a document's `.json` metadata file: each field the
      readers use, or `None` when the key is missing. */
  datatype MetaView = MetaView(
    domain: Option<string>,
    filename: Option<string>,
    language: Option<string>,
    tags: Option<seq<string>>)

  /** `{}`: what `load_metadata` returns for a file it cannot read. */
  const EmptyMeta := MetaView(None, None, None, None)

  /** One entry of `cerebro_metadata.json`, the router's per-chunk metadata. */
  datatype RouterMeta = RouterMeta(domain: string, filename: string, text: string)
}
