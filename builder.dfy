/** The part of java.lang.StringBuilder that FileUtilities relies on: a mutable
    sequence of UTF-16 code units, searched with indexOf and edited in place
    with replace. */
module Builder {
  import TextSearch

  class StringBuilder {
    var content: seq<char>

    constructor (s: seq<char>)
      ensures content == s
    {
      content := s;
    }

    /** indexOf(str, fromIndex), for a non-empty `str`. */
    function IndexOf(str: seq<char>, fromIndex: int): (r: int)
      reads this
      requires |str| > 0
      ensures r == -1 || (TextSearch.Clamp(fromIndex) <= r && TextSearch.MatchAt(content, str, r))
    {
      TextSearch.IndexOf(content, str, fromIndex)
    }

    /** replace(start, end, str): the units in [start, end) give way to `str`;
        an `end` past the length stands for the length. Java throws
        StringIndexOutOfBoundsException when `start` is negative, past the
        length or past `end`, hence the precondition. */
    method Replace(start: int, end: int, str: seq<char>)
      requires 0 <= start <= |content| && start <= end
      modifies this
      ensures end <= |old(content)| ==> content == old(content)[..start] + str + old(content)[end..]
      ensures end > |old(content)| ==> content == old(content)[..start] + str
    {
      if end > |content| {
        content := content[..start] + str;
      } else {
        content := content[..start] + str + content[end..];
      }
    }
  }
}
