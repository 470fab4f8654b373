/** Strings joined by a separator character, the way the program builds its composite keys. */
module Delimited {

  function Join(head: string, separator: char, tail: string): string {
    head + [separator] + tail
  }

  function FirstSeparator(s: string, separator: char): (i: nat)
    ensures i <= |s|
  {
    if s == "" || s[0] == separator then 0 else 1 + FirstSeparator(s[1..], separator)
  }

  /** A head without the separator ends at the first separator of the joined string. */
  lemma {:induction false} HeadEndsAtFirstSeparator(head: string, separator: char, tail: string)
    requires separator !in head
    ensures FirstSeparator(Join(head, separator, tail), separator) == |head|
  {
    if head != "" {
      HeadEndsAtFirstSeparator(head[1..], separator, tail);
      assert Join(head, separator, tail)[1..] == Join(head[1..], separator, tail);
    }
  }

  function BeforeLast(s: string, separator: char): string {
    if s == "" then ""
    else if s[|s| - 1] == separator then s[..|s| - 1]
    else BeforeLast(s[..|s| - 1], separator)
  }

  /** And a tail without the separator starts after the last one. */
  lemma {:induction false} TailStartsAfterLastSeparator(head: string, separator: char, tail: string)
    requires separator !in tail
    ensures BeforeLast(Join(head, separator, tail), separator) == head
  {
    if tail != "" {
      var n := |tail| - 1;
      TailStartsAfterLastSeparator(head, separator, tail[..n]);
      assert Join(head, separator, tail)[..|head| + 1 + n] == Join(head, separator, tail[..n]);
    }
  }

  /** Hence head and tail can be read back. */
  lemma JoinInjective(head: string, head': string, separator: char, tail: string, tail': string)
    requires separator !in head && separator !in head'
    requires Join(head, separator, tail) == Join(head', separator, tail')
    ensures head == head' && tail == tail'
  {
    var s := Join(head, separator, tail);
    HeadEndsAtFirstSeparator(head, separator, tail);
    HeadEndsAtFirstSeparator(head', separator, tail');
    assert head == s[..|head|] == head';
    assert tail == s[|head| + 1..] == tail';
  }

  /** Two arbitrary heads can be confused, for some tails, exactly when one is the other, or one
      followed by a separator starts the other. */
  lemma CollisionsExactly(head: string, head': string, separator: char)
    ensures (exists tail: string, tail': string :: Join(head, separator, tail) == Join(head', separator, tail'))
       <==> (head == head' || head + [separator] <= head' || head' + [separator] <= head)
  {
    if tail: string, tail': string :| Join(head, separator, tail) == Join(head', separator, tail') {
      var s := Join(head, separator, tail);
      assert s[..|head|] == head && s[..|head'|] == head';
      if |head| < |head'| {
        assert head + [separator] == s[..|head| + 1] == head'[..|head| + 1];
      } else if |head'| < |head| {
        assert head' + [separator] == s[..|head'| + 1] == head[..|head'| + 1];
      }
    }
    if head == head' {
      assert Join(head, separator, "") == Join(head', separator, "");
    } else if head + [separator] <= head' {
      var rest := head'[|head| + 1..];
      assert head' == head + [separator] + rest;
      assert Join(head, separator, rest + [separator]) == Join(head', separator, "");
    } else if head' + [separator] <= head {
      var rest := head[|head'| + 1..];
      assert head == head' + [separator] + rest;
      assert Join(head, separator, "") == Join(head', separator, rest + [separator]);
    }
  }
}
