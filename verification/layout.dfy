/**
 * The sidebar of the page layout: the initials badge, the displayed first
 * name, the title shown under it, and which navigation entry is active.
 */
module Layout {

  import opened SeqFacts

  /** `s.split(sep)` for a one-character separator: the pieces between separators, empty ones included. */
  function Split(s: string, sep: char): (parts: seq<string>)
    ensures |parts| >= 1
    decreases |s|
  {
    if |s| == 0 then [""]
    else if s[0] == sep then [""] + Split(s[1..], sep)
    else
      var t := Split(s[1..], sep);
      [[s[0]] + t[0]] + t[1..]
  }

  /** `parts.join(sep)` */
  function Join(parts: seq<string>, sep: char): string {
    if |parts| == 0 then ""
    else if |parts| == 1 then parts[0]
    else parts[0] + [sep] + Join(parts[1..], sep)
  }

  /** No piece contains the separator. */
  predicate SepFree(parts: seq<string>, sep: char) {
    forall k :: 0 <= k < |parts| ==> sep !in parts[k]
  }

  /** A correct split: separator-free pieces that join back to the input, the first one running up to the first separator. */
  predicate SplitsInto(s: string, sep: char, parts: seq<string>) {
    && |parts| >= 1
    && SepFree(parts, sep)
    && Join(parts, sep) == s
    && parts[0] <= s
    && (|parts[0]| < |s| ==> s[|parts[0]|] == sep)
  }

  /** A leading separator closes an empty first piece. */
  lemma SplitAtSep(s: string, sep: char)
    requires |s| > 0 && s[0] == sep
    ensures Split(s, sep) == [""] + Split(s[1..], sep)
  {
  }

  /** A leading character other than the separator starts the first piece. */
  lemma SplitAtChar(s: string, sep: char)
    requires |s| > 0 && s[0] != sep
    ensures Split(s, sep) == [[s[0]] + Split(s[1..], sep)[0]] + Split(s[1..], sep)[1..]
  {
  }

  /** Joining after an empty first piece starts with the separator. */
  lemma JoinAfterEmpty(t: seq<string>, sep: char)
    requires |t| >= 1
    ensures Join([""] + t, sep) == [sep] + Join(t, sep)
  {
    var p := [""] + t;
    assert p[0] == "" && p[1..] == t;
    assert "" + [sep] == [sep];
  }

  /** Joining after a character prepended to the first piece starts with that character. */
  lemma JoinAfterChar(c: char, t: seq<string>, sep: char)
    requires |t| >= 1
    ensures Join([[c] + t[0]] + t[1..], sep) == [c] + Join(t, sep)
  {
    var p := [[c] + t[0]] + t[1..];
    if |t| == 1 {
      assert p == [[c] + t[0]];
    } else {
      assert p[0] == [c] + t[0] && p[1..] == t[1..];
      AppendAssociates([c], t[0], [sep]);
      AppendAssociates([c], t[0] + [sep], Join(t[1..], sep));
    }
  }

  /** A leading separator keeps a correct split correct. */
  lemma SplitsAfterSep(s: string, sep: char)
    requires |s| > 0 && s[0] == sep
    requires SplitsInto(s[1..], sep, Split(s[1..], sep))
    ensures SplitsInto(s, sep, Split(s, sep))
  {
    var t := Split(s[1..], sep);
    SplitAtSep(s, sep);
    JoinAfterEmpty(t, sep);
    assert s == [sep] + s[1..];
    var parts := [""] + t;
    forall k | 0 <= k < |parts|
      ensures sep !in parts[k]
    {
      if k > 0 {
        assert parts[k] == t[k - 1];
      }
    }
  }

  /** A leading ordinary character keeps a correct split correct. */
  lemma SplitsAfterChar(s: string, sep: char)
    requires |s| > 0 && s[0] != sep
    requires SplitsInto(s[1..], sep, Split(s[1..], sep))
    ensures SplitsInto(s, sep, Split(s, sep))
  {
    var t := Split(s[1..], sep);
    SplitAtChar(s, sep);
    JoinAfterChar(s[0], t, sep);
    assert s == [s[0]] + s[1..];
    var parts := [[s[0]] + t[0]] + t[1..];
    forall k | 0 <= k < |parts|
      ensures sep !in parts[k]
    {
      if k > 0 {
        assert parts[k] == t[k];
      }
    }
    assert parts[0] == [s[0]] + t[0];
  }

  /** Splitting yields separator-free pieces that join back to the input; the first piece is the text before the first separator. */
  lemma {:induction false} SplitSound(s: string, sep: char)
    ensures SplitsInto(s, sep, Split(s, sep))
    decreases |s|
  {
    if |s| > 0 {
      SplitSound(s[1..], sep);
      if s[0] == sep {
        SplitsAfterSep(s, sep);
      } else {
        SplitsAfterChar(s, sep);
      }
    }
  }

  /** Splitting text that starts with a character other than the separator, written with the first character and the rest apart. */
  lemma SplitConsChar(c: char, rest: string, sep: char)
    requires c != sep
    ensures Split([c] + rest, sep) == [[c] + Split(rest, sep)[0]] + Split(rest, sep)[1..]
  {
    var s := [c] + rest;
    assert s[0] == c && s[1..] == rest;
    SplitAtChar(s, sep);
  }

  /** Prepending a character to a first piece that is itself a concatenation. */
  lemma PrependToFirst(c: char, u: seq<string>, x: string, y: string, rest: seq<string>)
    requires u == [x + y] + rest
    ensures [[c] + u[0]] + u[1..] == [([c] + x) + y] + rest
  {
    assert u[0] == x + y && u[1..] == rest;
    AppendAssociates([c], x, y);
  }

  /** One step of `SplitAfterWord`: a word character goes to the front of the first piece. */
  lemma WordCharStep(w: string, tail: string, sep: char)
    requires |w| > 0 && sep !in w
    requires Split(w[1..] + tail, sep) == [w[1..] + Split(tail, sep)[0]] + Split(tail, sep)[1..]
    ensures Split(w + tail, sep) == [w + Split(tail, sep)[0]] + Split(tail, sep)[1..]
  {
    var t := Split(tail, sep);
    var v := w[1..] + tail;
    assert [w[0]] + w[1..] == w;
    assert w + tail == [w[0]] + v by {
      AppendAssociates([w[0]], w[1..], tail);
    }
    SplitConsChar(w[0], v, sep);
    PrependToFirst(w[0], Split(v, sep), w[1..], t[0], t[1..]);
  }

  /** Splitting a separator-free word followed by more text keeps the word at the front of the first piece. */
  lemma {:induction false} SplitAfterWord(w: string, tail: string, sep: char)
    requires sep !in w
    ensures Split(w + tail, sep) == [w + Split(tail, sep)[0]] + Split(tail, sep)[1..]
    decreases |w|
  {
    if |w| > 0 {
      assert sep !in w[1..];
      SplitAfterWord(w[1..], tail, sep);
      WordCharStep(w, tail, sep);
    } else {
      var t := Split(tail, sep);
      assert w + tail == tail;
      assert w + t[0] == t[0];
      assert t == [t[0]] + t[1..];
    }
  }

  /** One step of `SplitJoin`: the first piece is split off at the separator that follows it. */
  lemma JoinSplitStep(parts: seq<string>, sep: char)
    requires |parts| >= 2 && sep !in parts[0]
    requires Split(Join(parts[1..], sep), sep) == parts[1..]
    ensures Split(Join(parts, sep), sep) == parts
  {
    var rest := Join(parts[1..], sep);
    var tail := [sep] + rest;
    SplitAfterWord(parts[0], tail, sep);
    SplitAtSep(tail, sep);
    assert tail[1..] == rest;
    AppendAssociates(parts[0], [sep], rest);
    assert parts[0] + "" == parts[0];
    assert parts == [parts[0]] + parts[1..];
  }

  /** Joining separator-free pieces and splitting again gives back the pieces. */
  lemma {:induction false} SplitJoin(parts: seq<string>, sep: char)
    requires |parts| >= 1
    requires SepFree(parts, sep)
    ensures Split(Join(parts, sep), sep) == parts
    decreases |parts|
  {
    if |parts| == 1 {
      SplitAfterWord(parts[0], "", sep);
      assert parts[0] + "" == parts[0];
    } else {
      assert SepFree(parts[1..], sep) by {
        forall k | 0 <= k < |parts[1..]|
          ensures sep !in parts[1..][k]
        {
          assert parts[1..][k] == parts[k + 1];
        }
      }
      SplitJoin(parts[1..], sep);
      JoinSplitStep(parts, sep);
    }
  }

  /** `words.map(n => n[0]).join("")`: an empty word's `undefined` joins as nothing. */
  function Heads(words: seq<string>): string {
    if |words| == 0 then ""
    else (if words[0] == "" then "" else [words[0][0]]) + Heads(words[1..])
  }

  /**
   * The initials badge: the first character of each space-separated word,
   * which are exactly the characters that start a word.
   */
  function Initials(name: string): (r: string)
    ensures r == WordStarts(name, true)
  {
    HeadsOfSplit(name);
    Heads(Split(name, ' '))
  }

  /**
   * The characters that begin a word, read left to right without splitting:
   * a non-space character at the start or right after a space. `atStart`
   * says whether the previous character was a space (or there was none).
   */
  function WordStarts(s: string, atStart: bool): string {
    if |s| == 0 then ""
    else (if atStart && s[0] != ' ' then [s[0]] else "") + WordStarts(s[1..], s[0] == ' ')
  }

  lemma {:induction false} HeadsOfSplit(s: string)
    ensures Heads(Split(s, ' ')) == WordStarts(s, true)
    ensures Heads(Split(s, ' ')[1..]) == WordStarts(s, false)
    decreases |s|
  {
    if |s| > 0 {
      HeadsOfSplit(s[1..]);
      var t := Split(s[1..], ' ');
      if s[0] == ' ' {
        assert Split(s, ' ') == [""] + t;
        assert Split(s, ' ')[1..] == t;
      } else {
        var parts := [[s[0]] + t[0]] + t[1..];
        assert Split(s, ' ') == parts;
        assert parts[1..] == t[1..];
        assert Heads(parts) == [s[0]] + Heads(t[1..]);
      }
    }
  }

  /** The first name: `name.split(" ")[0]`, the text before the first space. */
  function FirstName(name: string): (r: string)
    ensures r <= name
    ensures ' ' !in r
    ensures |r| < |name| ==> name[|r|] == ' '
  {
    SplitSound(name, ' ');
    Split(name, ' ')[0]
  }

  /** JavaScript's white space and line terminators, which `trim` removes. */
  predicate IsSpace(c: char) {
    var n := c as int;
    || (0x09 <= n <= 0x0D) || n == 0x20 || n == 0xA0 || n == 0x1680
    || (0x2000 <= n <= 0x200A) || n == 0x2028 || n == 0x2029 || n == 0x202F
    || n == 0x205F || n == 0x3000 || n == 0xFEFF
  }

  function TrimStart(s: string): (r: string)
    ensures |r| <= |s| && r == s[|s| - |r|..]
    ensures forall i :: 0 <= i < |s| - |r| ==> IsSpace(s[i])
    ensures r == "" || !IsSpace(r[0])
  {
    if |s| > 0 && IsSpace(s[0]) then TrimStart(s[1..]) else s
  }

  function TrimEnd(s: string): (r: string)
    ensures |r| <= |s| && r == s[..|r|]
    ensures forall i :: |r| <= i < |s| ==> IsSpace(s[i])
    ensures r == "" || !IsSpace(r[|r| - 1])
  {
    if |s| > 0 && IsSpace(s[|s| - 1]) then TrimEnd(s[..|s| - 1]) else s
  }

  /** `s.trim()` */
  function Trim(s: string): (r: string)
    ensures r == "" || (!IsSpace(r[0]) && !IsSpace(r[|r| - 1]))
  {
    TrimEnd(TrimStart(s))
  }

  /** `r` is `s[i..j]`, and everything of `s` outside `[i, j)` is white space. */
  predicate CutsSpace(s: string, i: nat, j: nat, r: string) {
    && i <= j <= |s|
    && r == s[i..j]
    && (forall k :: 0 <= k < i ==> IsSpace(s[k]))
    && (forall k :: j <= k < |s| ==> IsSpace(s[k]))
  }

  /** After white space up to `i`, trimming the end of the rest cuts only white space. */
  lemma TrimEndAfter(s: string, i: nat)
    requires i <= |s|
    requires forall k :: 0 <= k < i ==> IsSpace(s[k])
    ensures CutsSpace(s, i, i + |TrimEnd(s[i..])|, TrimEnd(s[i..]))
  {
    var t := s[i..];
    var r := TrimEnd(t);
    var j := i + |r|;
    assert r == s[i..j];
    forall k | j <= k < |s|
      ensures IsSpace(s[k])
    {
      assert s[k] == t[k - i];
    }
  }

  /** Trimming cuts white space, and only white space, from both ends. */
  lemma TrimCutsSpace(s: string)
    ensures exists i, j :: CutsSpace(s, i, j, Trim(s))
  {
    var t := TrimStart(s);
    var i := |s| - |t|;
    assert t == s[i..];
    TrimEndAfter(s, i);
    assert CutsSpace(s, i, i + |TrimEnd(t)|, Trim(s));
  }

  /** The sidebar title: `title.split("|")[0].trim()`. */
  function SidebarTitle(title: string): (r: string)
    ensures '|' !in r
    ensures r == "" || (!IsSpace(r[0]) && !IsSpace(r[|r| - 1]))
  {
    SplitSound(title, '|');
    Trim(Split(title, '|')[0])
  }

  /** The sidebar title is the part before the first bar with its surrounding white space removed. */
  lemma SidebarTitleIsTrimmedPrefix(title: string)
    ensures var before := Split(title, '|')[0];
      && before <= title
      && '|' !in before
      && (|before| < |title| ==> title[|before|] == '|')
      && SidebarTitle(title) == Trim(before)
  {
    SplitSound(title, '|');
  }

  /** One sidebar link. */
  datatype NavItem = NavItem(name: string, href: string)

  const Navigation: seq<NavItem> := [
    NavItem("Home", "/"),
    NavItem("Experience", "/experience"),
    NavItem("Projects", "/projects"),
    NavItem("Blogs", "/blogs"),
    NavItem("About", "/about"),
    NavItem("Contact", "/contact"),
    NavItem("Tools", "/tools")
  ]

  /** `isActive` for every navigation entry, for the current location path. */
  function ActiveFlags(path: string): (r: seq<bool>)
    ensures |r| == |Navigation|
    ensures forall i :: 0 <= i < |r| ==> (r[i] <==> Navigation[i].href == path)
  {
    seq(|Navigation|, i requires 0 <= i < |Navigation| => Navigation[i].href == path)
  }

  /** The entries' paths are pairwise distinct. */
  lemma HrefsDistinct()
    ensures forall i, j :: 0 <= i < j < |Navigation| ==> Navigation[i].href != Navigation[j].href
  {
  }

  /** At most one entry is active, and exactly one when the path is one of theirs. */
  lemma AtMostOneActive(path: string)
    ensures forall i, j :: 0 <= i < j < |Navigation| ==> !(ActiveFlags(path)[i] && ActiveFlags(path)[j])
    ensures (exists i :: 0 <= i < |Navigation| && Navigation[i].href == path) ==>
      exists i :: 0 <= i < |Navigation| && ActiveFlags(path)[i]
  {
    HrefsDistinct();
    if exists i :: 0 <= i < |Navigation| && Navigation[i].href == path {
      var i :| 0 <= i < |Navigation| && Navigation[i].href == path;
      assert ActiveFlags(path)[i];
    }
  }
}
