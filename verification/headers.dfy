/** The ticket template's header block (cartman/app.py, `_format_headers`):
    which draft headers are written, in which order, and how. */
module HeaderFormat {
  import opened Wrappers
  import opened Strings
  import opened Seqs
  import opened OrderedMap

  /** `s.index(x)`: the first position of `x`, or `|s|` when it is absent. */
  function IndexOf(s: seq<string>, x: string): (r: nat)
    ensures r <= |s|
    ensures r < |s| ==> s[r] == x && x !in s[..r]
    ensures r == |s| <==> x !in s
    decreases |s|
  {
    if |s| == 0 then 0
    else if s[0] == x then 0
    else
      var j := IndexOf(s[1..], x);
      assert j < |s| - 1 ==> s[..j + 1] == [s[0]] + s[1..][..j];
      assert x !in s[1..] ==> x !in s by { assert s == [s[0]] + s[1..]; }
      j + 1
  }

  /** An element placed at position `i` and absent before it is found there. */
  lemma IndexOfAt(s: seq<string>, i: nat)
    requires i < |s| && s[i] !in s[..i]
    ensures IndexOf(s, s[i]) == i
  {
    assert forall j :: 0 <= j < i ==> s[..i][j] == s[j];
  }

  /** In a dictionary the entry at position `j` is the first with its key. */
  lemma KeyPosition(h: seq<(string, string)>, j: nat)
    requires DistinctKeys(h) && j < |h|
    ensures IndexOf(Keys(h), h[j].0) == j
  {
    var ks := Keys(h);
    assert ks[j] !in ks[..j] by {
      forall t | 0 <= t < j ensures ks[..j][t] != ks[j] {
        assert ks[..j][t] == h[t].0;
      }
    }
    IndexOfAt(ks, j);
  }

  /** `sort_ref.index(k)` where `sort_ref = default_fields + headers.keys()`. */
  function Rank(defaults: seq<string>, keys: seq<string>, k: string): nat {
    IndexOf(defaults + keys, k)
  }

  lemma RankDefault(defaults: seq<string>, keys: seq<string>, k: string)
    requires k in defaults
    ensures Rank(defaults, keys, k) == IndexOf(defaults, k)
  {
    var s := defaults + keys;
    var i := IndexOf(defaults, k);
    assert s[..i] == defaults[..i];
    IndexOfAt(s, i);
  }

  lemma RankOther(defaults: seq<string>, keys: seq<string>, k: string)
    requires k !in defaults && k in keys
    ensures Rank(defaults, keys, k) == |defaults| + IndexOf(keys, k)
  {
    var s := defaults + keys;
    var j := IndexOf(keys, k);
    var i := |defaults| + j;
    assert keys[j] == k && k !in keys[..j];
    assert s[i] == keys[j];
    assert s[..i] == defaults + keys[..j];
    assert k !in defaults + keys[..j];
    IndexOfAt(s, i);
  }

  /** `k in self.default_fields or v`: the header is written to the template. */
  predicate Shown(defaults: seq<string>, p: (string, string)) {
    p.0 in defaults || p.1 != ""
  }

  /** The written headers whose keys are default fields, from `defaults[i]`
      on, each at the first position its key has in `defaults`. */
  function DefaultPart(defaults: seq<string>, h: seq<(string, string)>, i: nat): seq<(string, string)>
    requires i <= |defaults|
    decreases |defaults| - i
  {
    if i == |defaults| then []
    else
      var k := defaults[i];
      var rest := DefaultPart(defaults, h, i + 1);
      if k !in defaults[..i] && Get(h, k).Some? then [(k, Get(h, k).value)] + rest else rest
  }

  /** The default part holds exactly the draft's entries for default fields
      at or after position `i`. */
  lemma {:induction false} DefaultPartMembers(defaults: seq<string>, h: seq<(string, string)>, i: nat)
    requires i <= |defaults|
    ensures forall p :: p in DefaultPart(defaults, h, i) <==>
              p.0 in defaults && i <= IndexOf(defaults, p.0) && Get(h, p.0) == Some(p.1)
    decreases |defaults| - i
  {
    if i < |defaults| {
      DefaultPartMembers(defaults, h, i + 1);
      var k := defaults[i];
      if k !in defaults[..i] {
        IndexOfAt(defaults, i);
      }
      assert forall x :: x in defaults && IndexOf(defaults, x) == i ==> x == k;
      var rest := DefaultPart(defaults, h, i + 1);
      if k !in defaults[..i] && Get(h, k).Some? {
        var head := (k, Get(h, k).value);
        assert forall p :: p in [head] + rest <==> p == head || p in rest;
      }
    }
  }

  /** The keys of `r` sit at or after position `lo` of `rank`, in strictly
      increasing positions. */
  predicate Ascending(r: seq<(string, string)>, rank: seq<string>, lo: nat) {
    && (forall a :: 0 <= a < |r| ==> lo <= IndexOf(rank, r[a].0))
    && (forall a, b :: 0 <= a < b < |r| ==> IndexOf(rank, r[a].0) < IndexOf(rank, r[b].0))
  }

  /** An entry placed before an ascending run of later keys keeps it
      ascending. */
  lemma AscendingCons(p: (string, string), rest: seq<(string, string)>, rank: seq<string>, lo: nat)
    requires IndexOf(rank, p.0) == lo && Ascending(rest, rank, lo + 1)
    ensures Ascending([p] + rest, rank, lo)
  {
    var r := [p] + rest;
    assert forall a :: 1 <= a < |r| ==> r[a] == rest[a - 1];
  }

  /** The default part follows the order of `defaults`. */
  lemma {:induction false} DefaultPartOrdered(defaults: seq<string>, h: seq<(string, string)>, i: nat)
    requires i <= |defaults|
    ensures Ascending(DefaultPart(defaults, h, i), defaults, i)
    decreases |defaults| - i
  {
    if i < |defaults| {
      DefaultPartOrdered(defaults, h, i + 1);
      var k := defaults[i];
      var rest := DefaultPart(defaults, h, i + 1);
      if k !in defaults[..i] && Get(h, k).Some? {
        IndexOfAt(defaults, i);
        AscendingCons((k, Get(h, k).value), rest, defaults, i);
      } else {
        assert DefaultPart(defaults, h, i) == rest;
      }
    }
  }

  /** The written headers that are not default fields, from `h[i]` on, in
      dictionary order. */
  function OtherPart(defaults: seq<string>, h: seq<(string, string)>, i: nat): seq<(string, string)>
    requires i <= |h|
    decreases |h| - i
  {
    if i == |h| then []
    else
      var rest := OtherPart(defaults, h, i + 1);
      if h[i].0 !in defaults && h[i].1 != "" then [h[i]] + rest else rest
  }

  /** The other part holds exactly the shown entries of `h[i..]` whose keys
      are not default fields. */
  lemma {:induction false} OtherPartMembers(defaults: seq<string>, h: seq<(string, string)>, i: nat)
    requires i <= |h|
    ensures forall p :: p in OtherPart(defaults, h, i) <==> p in h[i..] && p.0 !in defaults && p.1 != ""
    decreases |h| - i
  {
    if i < |h| {
      OtherPartMembers(defaults, h, i + 1);
      assert forall p :: p in h[i..] <==> p == h[i] || p in h[i + 1..] by {
        assert h[i..] == [h[i]] + h[i + 1..];
      }
      var rest := OtherPart(defaults, h, i + 1);
      assert forall p :: p in [h[i]] + rest <==> p == h[i] || p in rest;
    }
  }

  /** When each entry of `h` from position `i` on sits at its own position
      in `ks`, the other part follows the order of `ks`. */
  lemma {:induction false} OtherPartOrdered(defaults: seq<string>, h: seq<(string, string)>, ks: seq<string>, i: nat)
    requires i <= |h|
    requires forall j :: i <= j < |h| ==> IndexOf(ks, h[j].0) == j
    ensures Ascending(OtherPart(defaults, h, i), ks, i)
    decreases |h| - i
  {
    if i < |h| {
      OtherPartOrdered(defaults, h, ks, i + 1);
      var rest := OtherPart(defaults, h, i + 1);
      if h[i].0 !in defaults && h[i].1 != "" {
        AscendingCons(h[i], rest, ks, i);
      } else {
        assert OtherPart(defaults, h, i) == rest;
      }
    }
  }

  /** The headers `_format_headers` writes, in the order it writes them. */
  function SelectHeaders(defaults: seq<string>, h: seq<(string, string)>): (r: seq<(string, string)>)
    ensures forall p :: p in r ==> p in h && Shown(defaults, p)
  {
    var d := DefaultPart(defaults, h, 0);
    var o := OtherPart(defaults, h, 0);
    assert h[0..] == h;
    DefaultPartMembers(defaults, h, 0);
    OtherPartMembers(defaults, h, 0);
    assert forall p :: p in d ==> p in h by {
      forall p | p in d ensures p in h {
        GetFound(h, p.0);
      }
    }
    d + o
  }

  /** A header is written exactly when its key is a default field or its
      value is non-empty. */
  lemma SelectHeadersMembers(defaults: seq<string>, h: seq<(string, string)>)
    requires DistinctKeys(h)
    ensures forall p :: p in SelectHeaders(defaults, h) <==> p in h && Shown(defaults, p)
  {
    var d := DefaultPart(defaults, h, 0);
    var o := OtherPart(defaults, h, 0);
    assert h[0..] == h;
    DefaultPartMembers(defaults, h, 0);
    OtherPartMembers(defaults, h, 0);
    forall p ensures p in d + o <==> p in h && Shown(defaults, p) {
      GetEntry(h, p.0, p.1);
    }
  }

  lemma SelectHeadersPair(defaults: seq<string>, h: seq<(string, string)>, a: nat, b: nat)
    requires DistinctKeys(h)
    requires a < b < |SelectHeaders(defaults, h)|
    ensures var r := SelectHeaders(defaults, h);
      Rank(defaults, Keys(h), r[a].0) < Rank(defaults, Keys(h), r[b].0)
  {
    var d := DefaultPart(defaults, h, 0);
    var o := OtherPart(defaults, h, 0);
    var r := d + o;
    var ka, kb := r[a].0, r[b].0;
    assert h[0..] == h;
    DefaultPartMembers(defaults, h, 0);
    OtherPartMembers(defaults, h, 0);
    DefaultPartOrdered(defaults, h, 0);
    forall j | 0 <= j < |h| ensures IndexOf(Keys(h), h[j].0) == j {
      KeyPosition(h, j);
    }
    OtherPartOrdered(defaults, h, Keys(h), 0);
    if b >= |d| {
      assert r[b] in o;
      GetFound(h, kb);
    }
    if a >= |d| {
      assert r[a] in o;
      GetFound(h, ka);
    }
    if b < |d| {
      assert ka == d[a].0 && kb == d[b].0;
      RankDefault(defaults, Keys(h), ka);
      RankDefault(defaults, Keys(h), kb);
    } else if a >= |d| {
      assert ka == o[a - |d|].0 && kb == o[b - |d|].0;
      RankOther(defaults, Keys(h), ka);
      RankOther(defaults, Keys(h), kb);
    } else {
      assert ka == d[a].0 && kb == o[b - |d|].0;
      RankDefault(defaults, Keys(h), ka);
      RankOther(defaults, Keys(h), kb);
    }
  }

  /** The written headers are ordered by their position in
      `default_fields + headers.keys()`: default fields first, in
      `default_fields` order, then the other keys in dictionary order. */
  lemma SelectHeadersOrder(defaults: seq<string>, h: seq<(string, string)>)
    requires DistinctKeys(h)
    ensures var r := SelectHeaders(defaults, h);
      forall a, b :: 0 <= a < b < |r| ==> Rank(defaults, Keys(h), r[a].0) < Rank(defaults, Keys(h), r[b].0)
  {
    var r := SelectHeaders(defaults, h);
    forall a, b | 0 <= a < b < |r|
      ensures Rank(defaults, Keys(h), r[a].0) < Rank(defaults, Keys(h), r[b].0)
    {
      SelectHeadersPair(defaults, h, a, b);
    }
  }

  /** `": ".join(pair)` for each written header. */
  function Lines(ps: seq<(string, string)>): (r: seq<string>)
    ensures |r| == |ps|
  {
    seq(|ps|, i requires 0 <= i < |ps| => ps[i].0 + ": " + ps[i].1)
  }

  /** `_format_headers(headers)`: the header block of the template. */
  function FormatHeaders(defaults: seq<string>, h: seq<(string, string)>): (r: string)
    ensures forall p :: p in SelectHeaders(defaults, h) ==> Contains(r, p.0 + ": " + p.1)
  {
    var ps := SelectHeaders(defaults, h);
    var ls := Lines(ps);
    JoinContains("\n", ls);
    assert forall i :: 0 <= i < |ps| ==> ls[i] == ps[i].0 + ": " + ps[i].1;
    Join("\n", ls)
  }

  /** A header that reads back unchanged: its key has no colon or line break
      and its value no line break. */
  predicate Writable(p: (string, string)) {
    ':' !in p.0 && '\n' !in p.0 && '\n' !in p.1
  }

  /** Splits text into its lines; an empty text has none. */
  function SplitLines(s: string): seq<string>
    decreases |s|
  {
    if s == "" then []
    else match FindChar(s, '\n')
      case None => [s]
      case Some(i) => [s[..i]] + SplitLines(s[i + 1..])
  }

  /** A "key: value" line split at its first colon; one space after the
      colon belongs to the separator. */
  function ParseLine(line: string): (string, string) {
    match FindChar(line, ':')
    case None => (line, "")
    case Some(i) =>
      if i + 1 < |line| && line[i + 1] == ' ' then (line[..i], line[i + 2..])
      else (line[..i], line[i + 1..])
  }

  /** Reads a header block back into its (key, value) pairs. This is a
      reference reader used to state that the block loses nothing; it is
      not Python's `email` parser. */
  function ParseHeaders(s: string): seq<(string, string)> {
    var lines := SplitLines(s);
    seq(|lines|, i requires 0 <= i < |lines| => ParseLine(lines[i]))
  }

  lemma ParseLineOf(p: (string, string))
    requires Writable(p)
    ensures ParseLine(p.0 + ": " + p.1) == p
  {
    var line := p.0 + ": " + p.1;
    assert line == p.0 + [':'] + (" " + p.1);
    FindCharAfter(p.0, ':', " " + p.1);
    assert line[..|p.0|] == p.0;
    assert line[|p.0| + 1] == ' ';
    assert line[|p.0| + 2..] == p.1;
  }

  lemma JoinCons(ls: seq<string>)
    requires |ls| > 1
    ensures Join("\n", ls) == ls[0] + ['\n'] + Join("\n", ls[1..])
  {
  }

  /** Splitting joined lines gives the lines back when none is empty or
      holds a line break. */
  lemma {:induction false} SplitJoin(ls: seq<string>)
    requires forall i :: 0 <= i < |ls| ==> ls[i] != "" && '\n' !in ls[i]
    ensures SplitLines(Join("\n", ls)) == ls
    decreases |ls|
  {
    if |ls| == 1 {
      assert Join("\n", ls) == ls[0];
    } else if |ls| > 1 {
      SplitJoin(ls[1..]);
      var rest := Join("\n", ls[1..]);
      JoinCons(ls);
      FindCharAfter(ls[0], '\n', rest);
      var s := ls[0] + ['\n'] + rest;
      assert s[..|ls[0]|] == ls[0];
      assert s[|ls[0]| + 1..] == rest;
      assert ls == [ls[0]] + ls[1..];
    }
  }

  /** Reading a written header block gives back exactly the headers written,
      in order, when every key and value is writable. */
  lemma FormatHeadersRoundTrip(defaults: seq<string>, h: seq<(string, string)>)
    requires DistinctKeys(h)
    requires forall p :: p in h ==> Writable(p)
    ensures ParseHeaders(FormatHeaders(defaults, h)) == SelectHeaders(defaults, h)
  {
    var ps := SelectHeaders(defaults, h);
    SelectHeadersMembers(defaults, h);
    var ls := Lines(ps);
    forall i | 0 <= i < |ps| ensures ls[i] != "" && '\n' !in ls[i] && ParseLine(ls[i]) == ps[i] {
      assert ps[i] in ps;
      ParseLineOf(ps[i]);
      assert ls[i] == ps[i].0 + ": " + ps[i].1;
    }
    SplitJoin(ls);
  }
}
