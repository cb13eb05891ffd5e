/** The constants of `UFSConstants` that the name parser and the scheme decoders use. */
module FsConstants {

  /** Marks the start of an extension in a file name. */
  const ExtensionIdentifier: char := '.'

  /** The canonical path separator. */
  const FileSeparator: char := '/'

  /** Separates the archive location from the entry path in a `jar:` URI. */
  const JarResourceSeparator: char := '!'

  /** The prefix of a rebuilt runtime-image URI. */
  const JrtSchemePrefix: string := "jrt:/"
}
