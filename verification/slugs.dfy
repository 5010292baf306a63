/** Article identifiers derived from file names in the articles directory. */
module Slugs {

  const MdExtension := ".md"

  predicate HasMdSuffix(name: string) {
    |name| >= |MdExtension| && name[|name| - |MdExtension|..] == MdExtension
  }

  /**
    The identifier of a file: its name with a trailing `.md` removed. A name
    that does not end in `.md`, even one containing `.md` elsewhere, is kept whole.
   */
  function StripMd(name: string): (id: string)
    ensures HasMdSuffix(name) ==> id + MdExtension == name
    ensures !HasMdSuffix(name) ==> id == name
  {
    if HasMdSuffix(name) then
      var id := name[..|name| - |MdExtension|];
      assert id + MdExtension == name;
      id
    else name
  }

  /** Appending `.md` and stripping it again gives back the identifier. */
  lemma StripAppended(id: string)
    ensures HasMdSuffix(id + MdExtension)
    ensures StripMd(id + MdExtension) == id
  {
    var name := id + MdExtension;
    assert name[|name| - |MdExtension|..] == MdExtension;
    assert name[..|name| - |MdExtension|] == id;
  }

  /** Two `.md` file names with the same identifier are the same name. */
  lemma StripMdInjective(a: string, b: string)
    requires HasMdSuffix(a) && HasMdSuffix(b)
    requires StripMd(a) == StripMd(b)
    ensures a == b
  {
  }
}
