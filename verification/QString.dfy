/** The string object the program passes by reference and edits in place. */
module Strings {
  import opened Regex

  class QString {
    var text: string

    constructor (text: string)
      ensures this.text == text
    {
      this.text := text;
    }

    method Clear()
      modifies this
      ensures text == ""
    {
      text := "";
    }

    method Append(s: string)
      modifies this
      ensures text == old(text) + s
    {
      text := text + s;
    }

    // Every match of the expression is cut out.
    method Remove(re: seq<Item>)
      modifies this
      ensures text == RemoveAll(re, old(text))
    {
      text := RemoveAll(re, text);
    }
  }
}
