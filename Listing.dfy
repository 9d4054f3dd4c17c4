/**
 * The directory listing both catalog scripts walk: `sorted(os.listdir("."))`
 * paired with each file's decoded text.
 */
module Listing {
  import opened Text

  /** One entry of the directory listing: its name and its text. */
  datatype SourceFile = SourceFile(name: string, content: string)

  /** `filename.lower().endswith(".lua")`. */
  predicate IsLuaName(name: string) {
    EndsWith(Lower(name), ".lua")
  }
}
