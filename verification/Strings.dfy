/** String operations shared by the models, on ASCII text. */
module Strings {

  /** What `\s` matches and `strip` removes. */
  predicate IsBlank(c: char) {
    c == ' ' || '\t' <= c <= '\r' || '\U{1c}' <= c <= '\U{1f}'
  }

  function TrimLeft(s: string, c: char): string {
    if s != "" && s[0] == c then TrimLeft(s[1..], c) else s
  }

  function TrimRight(s: string, c: char): string {
    if s != "" && s[|s| - 1] == c then TrimRight(s[..|s| - 1], c) else s
  }

  function Join(words: seq<string>, separator: string): string {
    if words == [] then ""
    else if |words| == 1 then words[0]
    else words[0] + (separator + Join(words[1..], separator))
  }

  lemma JoinCons(word: string, words: seq<string>, separator: string)
    requires words != []
    ensures Join([word] + words, separator) == word + (separator + Join(words, separator))
  {
    assert ([word] + words)[1..] == words;
  }
}
