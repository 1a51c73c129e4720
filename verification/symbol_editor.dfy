/** The symbol editor of the graph editor: a set of symbol names edited through
    a chip input. Typing a comma-separated list adds every non-blank piece;
    removing a chip deletes one symbol. Every change is announced once on the
    `symbolsUpdated` output, which is modelled as a count of emissions. */
module SymbolEditor {

  /** The character the chip input's value is split on. */
  const Separator: char := ','

  /** ECMAScript's WhiteSpace and LineTerminator characters, the set that
      `String.prototype.trim` strips. */
  predicate IsWhitespace(c: char) {
    || c == '\t' || c == '\U{000B}' || c == '\U{000C}' || c == ' ' || c == '\U{00A0}' || c == '\U{FEFF}'
    || c == '\n' || c == '\r' || c == '\U{2028}' || c == '\U{2029}'
    || c == '\U{1680}' || ('\U{2000}' <= c <= '\U{200A}')
    || c == '\U{202F}' || c == '\U{205F}' || c == '\U{3000}'
  }

  /** Neither end of `s` is whitespace. */
  predicate Trimmed(s: string) {
    |s| == 0 || (!IsWhitespace(s[0]) && !IsWhitespace(s[|s| - 1]))
  }

  /** The first index at or after `k` that is not whitespace, or the end. */
  function SkipLeading(s: string, k: nat): (a: nat)
    requires k <= |s|
    ensures k <= a <= |s|
    ensures forall i :: k <= i < a ==> IsWhitespace(s[i])
    ensures a == |s| || !IsWhitespace(s[a])
    decreases |s| - k
  {
    if k == |s| || !IsWhitespace(s[k]) then k else SkipLeading(s, k + 1)
  }

  /** Scanning back from `b`, no further than `a`: one past the last index
      that is not whitespace, or `a`. */
  function SkipTrailing(s: string, a: nat, b: nat): (e: nat)
    requires a <= b <= |s|
    ensures a <= e <= b
    ensures forall i :: e <= i < b ==> IsWhitespace(s[i])
    ensures e == a || !IsWhitespace(s[e - 1])
    decreases b
  {
    if b == a || !IsWhitespace(s[b - 1]) then b else SkipTrailing(s, a, b - 1)
  }

  /** JavaScript's `trim`: `s` with whitespace stripped from both ends. */
  function Trim(s: string): (r: string)
    ensures Trimmed(r)
    ensures |r| <= |s|
  {
    var a := SkipLeading(s, 0);
    s[a .. SkipTrailing(s, a, |s|)]
  }

  /** `Trim` keeps an infix of `s` and drops only whitespace around it. */
  lemma TrimInfix(s: string)
    ensures exists a, b :: 0 <= a <= b <= |s| && Trim(s) == s[a..b]
              && (forall i :: 0 <= i < a ==> IsWhitespace(s[i]))
              && (forall i :: b <= i < |s| ==> IsWhitespace(s[i]))
  {
    var a := SkipLeading(s, 0);
    var b := SkipTrailing(s, a, |s|);
    assert Trim(s) == s[a..b];
  }

  /** `Trim` is the only infix with whitespace outside it and none at its ends. */
  lemma TrimUnique(s: string, a: nat, b: nat)
    requires a <= b <= |s|
    requires forall i :: 0 <= i < a ==> IsWhitespace(s[i])
    requires forall i :: b <= i < |s| ==> IsWhitespace(s[i])
    requires Trimmed(s[a..b])
    ensures Trim(s) == s[a..b]
  {
    var a' := SkipLeading(s, 0);
    var b' := SkipTrailing(s, a', |s|);
    if a < b {
      assert s[a..b][0] == s[a] && s[a..b][b - a - 1] == s[b - 1];
      assert a' == a;
      assert b' == b;
    } else {
      assert a' == |s|;
    }
  }

  /** Trimming a trimmed string changes nothing, so trimming is idempotent. */
  lemma TrimIdempotent(s: string)
    ensures Trimmed(s) ==> Trim(s) == s
    ensures Trim(Trim(s)) == Trim(s)
  {
    var r := Trim(s);
    TrimUnique(r, 0, |r|);
    assert r[0..|r|] == r;
    if Trimmed(s) {
      TrimUnique(s, 0, |s|);
      assert s[0..|s|] == s;
    }
  }

  /** JavaScript's `split` on one character: the pieces between separators, in
      order, with empty pieces kept; the empty string gives one empty piece. */
  function Split(s: string, sep: char): (parts: seq<string>)
    ensures |parts| >= 1
    ensures forall k :: 0 <= k < |parts| ==> sep !in parts[k]
  {
    if |s| == 0 then [""]
    else
      var rest := Split(s[1..], sep);
      if s[0] == sep then [""] + rest
      else [[s[0]] + rest[0]] + rest[1..]
  }

  /** The pieces glued back together with the separator between them. */
  function Join(parts: seq<string>, sep: char): string
    requires |parts| >= 1
  {
    if |parts| == 1 then parts[0] else parts[0] + [sep] + Join(parts[1..], sep)
  }

  /** Splitting loses nothing: joining the pieces gives back the input. */
  lemma {:induction false} JoinSplit(s: string, sep: char)
    ensures Join(Split(s, sep), sep) == s
  {
    if |s| > 0 {
      var rest := Split(s[1..], sep);
      JoinSplit(s[1..], sep);
      if s[0] == sep {
        assert ([""] + rest)[1..] == rest;
      } else {
        var parts := [[s[0]] + rest[0]] + rest[1..];
        if |rest| > 1 {
          assert parts[1..] == rest[1..];
        }
      }
      assert s == [s[0]] + s[1..];
    }
  }

  /** A separator-free string is a single piece. */
  lemma {:induction false} SplitNoSeparator(a: string, sep: char)
    requires sep !in a
    ensures Split(a, sep) == [a]
  {
    if |a| > 0 {
      SplitNoSeparator(a[1..], sep);
      assert a == [a[0]] + a[1..];
    }
  }

  /** A separator-free prefix followed by a separator is the first piece. */
  lemma {:induction false} SplitPrefix(a: string, t: string, sep: char)
    requires sep !in a
    ensures Split(a + [sep] + t, sep) == [a] + Split(t, sep)
  {
    var s := a + [sep] + t;
    if |a| == 0 {
      assert s[1..] == t;
    } else {
      SplitPrefix(a[1..], t, sep);
      assert s[1..] == a[1..] + [sep] + t;
      assert a == [a[0]] + a[1..];
    }
  }

  /** Joining separator-free pieces and splitting again gives back the pieces. */
  lemma {:induction false} SplitJoin(parts: seq<string>, sep: char)
    requires |parts| >= 1
    requires forall k :: 0 <= k < |parts| ==> sep !in parts[k]
    ensures Split(Join(parts, sep), sep) == parts
  {
    if |parts| == 1 {
      SplitNoSeparator(parts[0], sep);
    } else {
      SplitJoin(parts[1..], sep);
      SplitPrefix(parts[0], Join(parts[1..], sep), sep);
      assert parts == [parts[0]] + parts[1..];
    }
  }

  /** The chip input's value split on commas with every piece trimmed. */
  function Pieces(value: string): (ps: seq<string>)
    ensures |ps| == |Split(value, Separator)|
    ensures forall k :: 0 <= k < |ps| ==> ps[k] == Trim(Split(value, Separator)[k])
  {
    var parts := Split(value, Separator);
    seq(|parts|, k requires 0 <= k < |parts| => Trim(parts[k]))
  }

  /** The symbol set and the text of the chip input. */
  datatype Editor = Editor(symbols: set<string>, input: string)

  /** An editor state together with the number of `symbolsUpdated` emissions. */
  datatype Update = Update(editor: Editor, emitted: nat)

  /** The distinct non-empty strings among `pieces`. */
  function NonEmpty(pieces: seq<string>): set<string> {
    set p | p in pieces && p != ""
  }

  /** The `forEach` over the trimmed pieces: each non-empty piece is inserted,
      clears the input and emits once; empty pieces do nothing. */
  function AddPieces(ed: Editor, pieces: seq<string>): (r: Update)
    ensures r.editor.symbols == ed.symbols + NonEmpty(pieces)
    ensures r.emitted == |pieces| - multiset(pieces)[""]
    ensures NonEmpty(pieces) != {} ==> r.editor.input == ""
    ensures NonEmpty(pieces) == {} ==> r.editor.input == ed.input
    decreases |pieces|
  {
    if |pieces| == 0 then Update(ed, 0)
    else
      var p := pieces[0];
      var next := if |p| >= 1 then Editor(ed.symbols + {p}, "") else ed;
      var rest := AddPieces(next, pieces[1..]);
      assert pieces == [p] + pieces[1..];
      assert NonEmpty(pieces) == NonEmpty([p]) + NonEmpty(pieces[1..]);
      Update(rest.editor, rest.emitted + if |p| >= 1 then 1 else 0)
  }

  /** `addSymbol`: an invalid form control rejects the event outright;
      otherwise every non-blank comma-separated piece, trimmed, is added. */
  function AddSymbol(ed: Editor, value: string, valid: bool): (r: Update)
    ensures !valid ==> r == Update(ed, 0)
    ensures valid ==> r.editor.symbols == ed.symbols + NonEmpty(Pieces(value))
    ensures valid ==> r.emitted == |Pieces(value)| - multiset(Pieces(value))[""]
    ensures valid && NonEmpty(Pieces(value)) != {} ==> r.editor.input == ""
    ensures NonEmpty(Pieces(value)) == {} ==> r.editor.input == ed.input
  {
    if !valid then Update(ed, 0) else AddPieces(ed, Pieces(value))
  }

  /** A string the editor can store from typed input. */
  predicate Clean(s: string) {
    s != "" && Trimmed(s) && Separator !in s
  }

  /** Every symbol `addSymbol` inserts is non-empty, trimmed and comma-free. */
  lemma AddedSymbolsAreClean(ed: Editor, value: string, valid: bool)
    ensures forall s :: s in AddSymbol(ed, value, valid).editor.symbols && s !in ed.symbols ==> Clean(s)
  {
    var parts := Split(value, Separator);
    forall s | s in AddSymbol(ed, value, valid).editor.symbols && s !in ed.symbols
      ensures Clean(s)
    {
      var k :| 0 <= k < |Pieces(value)| && Pieces(value)[k] == s;
      TrimInfix(parts[k]);
    }
  }

  /** A clean string typed on its own is the single piece it consists of. */
  lemma PiecesOfClean(s: string)
    requires Clean(s)
    ensures Pieces(s) == [s]
  {
    SplitNoSeparator(s, Separator);
    TrimIdempotent(s);
  }

  /** Typing a clean symbol adds exactly it, with one emission. */
  lemma AddClean(ed: Editor, s: string)
    requires Clean(s)
    ensures AddSymbol(ed, s, true).editor.symbols == ed.symbols + {s}
    ensures AddSymbol(ed, s, true).emitted == 1
  {
    PiecesOfClean(s);
    assert NonEmpty([s]) == {s};
  }

  /** Typing a clean symbol that is not yet present and removing it again
      restores the set. */
  lemma AddThenRemove(ed: Editor, s: string)
    requires Clean(s) && s !in ed.symbols
    ensures RemoveSymbol(AddSymbol(ed, s, true).editor, s).editor.symbols == ed.symbols
  {
    AddClean(ed, s);
  }

  /** Removing a present symbol and typing it again restores the set. */
  lemma RemoveThenAdd(ed: Editor, s: string)
    requires Clean(s) && s in ed.symbols
    ensures AddSymbol(RemoveSymbol(ed, s).editor, s, true).editor.symbols == ed.symbols
  {
    AddClean(RemoveSymbol(ed, s).editor, s);
  }

  /** Typing only symbols that are already present leaves the set unchanged,
      and typing the same text twice adds nothing the second time. */
  lemma AddPresentUnchanged(ed: Editor, value: string, valid: bool)
    ensures NonEmpty(Pieces(value)) <= ed.symbols ==>
              AddSymbol(ed, value, valid).editor.symbols == ed.symbols
    ensures var once := AddSymbol(ed, value, valid).editor;
            AddSymbol(once, value, valid).editor.symbols == once.symbols
  {
  }

  /** `removeSymbol`: delete one symbol and emit once. */
  function RemoveSymbol(ed: Editor, s: string): (r: Update)
    ensures s !in r.editor.symbols
    ensures forall t :: t != s ==> (t in r.editor.symbols <==> t in ed.symbols)
    ensures r.editor.input == ed.input && r.emitted == 1
  {
    Update(ed.(symbols := ed.symbols - {s}), 1)
  }
}
