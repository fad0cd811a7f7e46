/** Abstract stand-in for an opened zip container, shared by the browser reader and the
    offline batch extractor. The container format and decompression are not modelled:
    an archive is the sequence of entries the zip library enumerates. */
module Archive {

  type Byte = bv8
  type Bytes = seq<Byte>

  datatype Option<+T> = None | Some(value: T)

  /** One member of the container. `content` is what the library materialises for the
      entry: `None` when reading the entry's bytes fails (the library's promise rejects). */
  datatype Entry = Entry(name: string, isDirectory: bool, content: Option<Bytes>)
}
