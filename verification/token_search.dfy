/** The search for an extension name in a space-separated list (src/core/egl_loader.cpp), which skips the whole
    name after every match that is not a token. */
module TokenSearch {
  import opened Wrappers

  /** name stands at position p. */
  predicate At(ext: string, p: nat, name: string) {
    p + |name| <= |ext| && ext[p..p + |name|] == name
  }

  /** name stands at p and is delimited by spaces or the ends. */
  predicate DelimitedAt(ext: string, p: nat, name: string) {
    At(ext, p, name) && LeftOk(ext, p) && RightOk(ext, p + |name|)
  }

  predicate LeftOk(ext: string, p: nat)
    requires p <= |ext|
  {
    p == 0 || ext[p - 1] == ' '
  }

  predicate RightOk(ext: string, e: nat)
    requires e <= |ext|
  {
    e == |ext| || ext[e] == ' '
  }

  ghost predicate Present(ext: string, name: string) {
    exists p: nat :: DelimitedAt(ext, p, name)
  }

  /** The first occurrence of name at or after `from`, as strstr finds it. */
  function Strstr(ext: string, from: nat, name: string): (m: Option<nat>)
    requires from <= |ext|
    ensures m.Some? ==> from <= m.value <= |ext| && At(ext, m.value, name)
    ensures forall p: nat :: from <= p < (if m.Some? then m.value else |ext| + 1) ==> !At(ext, p, name)
    decreases |ext| - from
  {
    if At(ext, from, name) then Some(from)
    else if from == |ext| then None
    else Strstr(ext, from + 1, name)
  }

  /** What the loop computes from a cursor on. */
  function Search(ext: string, cursor: nat, name: string): bool
    requires cursor <= |ext| && name != ""
    decreases |ext| - cursor
  {
    match Strstr(ext, cursor, name)
    case None => false
    case Some(m) => (LeftOk(ext, m) && RightOk(ext, m + |name|)) || Search(ext, m + |name|, name)
  }

  /** The loop comes to an end: it does not advance over an empty name. */
  predicate Terminates(ext: string, name: string) {
    name != "" || ext == "" || ext[0] == ' '
  }

  /** One turn of the loop on an empty name leaves the cursor where it is, unless it returns. */
  lemma EmptyNameStays(ext: string)
    ensures Strstr(ext, 0, "") == Some(0)
    ensures LeftOk(ext, 0) && RightOk(ext, 0) <==> Terminates(ext, "")
  {
  }

  /** A turn that does not return advances, and what is still to be searched has the answer. */
  lemma TurnGoesOn(ext: string, cursor: nat, name: string, m: nat)
    requires cursor <= |ext| && Strstr(ext, cursor, name) == Some(m) && !(LeftOk(ext, m) && RightOk(ext, m + |name|))
    requires Terminates(ext, name) && (name == "" ==> cursor == 0)
    ensures name != "" && Search(ext, cursor, name) == Search(ext, m + |name|, name)
  {
    if name == "" {
      EmptyNameStays(ext);
    }
  }

  method ExtensionPresent(extensions: Option<string>, name: Option<string>) returns (found: bool)
    requires extensions.Some? && name.Some? ==> Terminates(extensions.value, name.value)
    ensures extensions.None? || name.None? ==> !found
    ensures extensions.Some? && name.Some? ==>
              found == (name.value == "" || Search(extensions.value, 0, name.value))
  {
    if extensions.None? || name.None? {
      return false;
    }
    found := HasToken(extensions.value, name.value);
  }

  method HasToken(ext: string, name: string) returns (found: bool)
    requires Terminates(ext, name)
    ensures found == (name == "" || Search(ext, 0, name))
  {
    var cursor := 0;
    while true
      invariant cursor <= |ext| && (name == "" ==> cursor == 0)
      invariant (name == "" || Search(ext, cursor, name)) == (name == "" || Search(ext, 0, name))
      decreases |ext| - cursor
    {
      var answer, next := Turn(ext, cursor, name);
      if answer.Some? {
        return answer.value;
      }
      cursor := next;
    }
  }

  /** One turn of the loop: it answers, or goes on after the match. */
  method Turn(ext: string, cursor: nat, name: string) returns (answer: Option<bool>, next: nat)
    requires cursor <= |ext| && Terminates(ext, name) && (name == "" ==> cursor == 0)
    ensures answer.Some? ==> answer.value == (name == "" || Search(ext, cursor, name))
    ensures answer.None? ==>
              name != "" && cursor < next <= |ext| && Search(ext, cursor, name) == Search(ext, next, name)
  {
    next := cursor;
    var m := Strstr(ext, cursor, name);
    if m.None? {
      return Some(false), next;
    }
    next := m.value + |name|;
    if LeftOk(ext, m.value) && RightOk(ext, next) {
      return Some(true), next;
    }
    TurnGoesOn(ext, cursor, name, m.value);
    answer := None;
  }

  /** The answer of at most n turns of the loop, if they come to one. */
  function Turns(ext: string, cursor: nat, name: string, n: nat): Option<bool>
    requires cursor <= |ext|
    decreases n
  {
    if n == 0 then None
    else match Strstr(ext, cursor, name)
      case None => Some(false)
      case Some(m) =>
        if LeftOk(ext, m) && RightOk(ext, m + |name|) then Some(true) else Turns(ext, m + |name|, name, n - 1)
  }

  lemma {:induction false} TurnsSearch(ext: string, cursor: nat, name: string, n: nat)
    requires cursor <= |ext| && name != ""
    ensures Turns(ext, cursor, name, n).Some? ==> Turns(ext, cursor, name, n).value == Search(ext, cursor, name)
    ensures n > |ext| - cursor ==> Turns(ext, cursor, name, n).Some?
    decreases n
  {
    if n > 0 {
      var found := Strstr(ext, cursor, name);
      if found.Some? && !DelimitedAt(ext, found.value, name) {
        TurnsSearch(ext, found.value + |name|, name, n - 1);
      }
    }
  }

  lemma {:induction false} EmptyTurns(ext: string, n: nat)
    ensures Turns(ext, 0, "", n) == if n > 0 && Terminates(ext, "") then Some(true) else None
  {
    EmptyNameStays(ext);
    if n > 0 && !Terminates(ext, "") {
      EmptyTurns(ext, n - 1);
    }
  }

  /** Some number of turns brings an answer if and only if the name is not empty or the list starts with a space or
      its end. */
  lemma EndsExactlyWhen(ext: string, name: string)
    ensures (exists n: nat :: Turns(ext, 0, name, n).Some?) <==> Terminates(ext, name)
  {
    if name == "" {
      forall n: nat
        ensures Turns(ext, 0, name, n) == if n > 0 && Terminates(ext, "") then Some(true) else None
      {
        EmptyTurns(ext, n);
      }
      assert Turns(ext, 0, name, 1) == if Terminates(ext, "") then Some(true) else None;
    } else {
      TurnsSearch(ext, 0, name, |ext| + 1);
    }
  }

  /** From its j-th character on, name repeats its own start, and a space comes before. */
  predicate RepeatsAt(name: string, j: nat) {
    0 < j < |name| && name[j - 1] == ' ' && name[j..] == name[..|name| - j]
  }

  ghost predicate RepeatsItself(name: string) {
    exists j: nat :: RepeatsAt(name, j)
  }

  /** A delimited occurrence that starts inside an earlier occurrence makes the name repeat itself. */
  lemma OverlapRepeats(ext: string, name: string, m: nat, p: nat)
    requires At(ext, m, name) && DelimitedAt(ext, p, name) && m < p < m + |name|
    ensures RepeatsAt(name, p - m)
  {
    var j, n := p - m, |name|;
    assert name[j - 1] == ext[m + j - 1];
    assert name[j..] == ext[p..m + n];
    assert name[..n - j] == ext[p..p + n][..n - j];
    assert ext[p..p + n][..n - j] == ext[p..m + n];
  }

  /** A delimited occurrence at or after `cursor`. */
  ghost predicate PresentFrom(ext: string, cursor: nat, name: string) {
    exists p: nat :: cursor <= p && DelimitedAt(ext, p, name)
  }

  /** What lies between the cursor and the end of a match that is not a token can be skipped. */
  lemma SkipLosesNothing(ext: string, cursor: nat, name: string, m: nat)
    requires cursor <= |ext| && Strstr(ext, cursor, name) == Some(m) && !DelimitedAt(ext, m, name)
               && !RepeatsItself(name)
    ensures PresentFrom(ext, cursor, name) <==> PresentFrom(ext, m + |name|, name)
  {
    if PresentFrom(ext, cursor, name) {
      var p: nat :| cursor <= p && DelimitedAt(ext, p, name);
      assert m < p;
      if p < m + |name| {
        OverlapRepeats(ext, name, m, p);
      }
    }
  }

  /** The skip is harmless for a name that does not repeat itself. */
  lemma {:induction false} SearchFinds(ext: string, cursor: nat, name: string)
    requires cursor <= |ext| && name != "" && !RepeatsItself(name)
    ensures Search(ext, cursor, name) <==> PresentFrom(ext, cursor, name)
    decreases |ext| - cursor
  {
    var found := Strstr(ext, cursor, name);
    if found.Some? {
      var m := found.value;
      if DelimitedAt(ext, m, name) {
        assert PresentFrom(ext, cursor, name);
      } else {
        SkipLosesNothing(ext, cursor, name, m);
        SearchFinds(ext, m + |name|, name);
      }
    }
  }

  /** A string in which the skip misses a name that repeats itself. */
  function Missed(name: string, j: nat): string
    requires RepeatsAt(name, j)
  {
    [if name[0] == 'a' then 'b' else 'a'] + name[..j] + name
  }

  lemma SearchMisses(name: string, j: nat)
    requires RepeatsAt(name, j)
    ensures var ext := Missed(name, j);
            DelimitedAt(ext, 1 + j, name) && !Search(ext, 0, name)
  {
    var ext, n := Missed(name, j), |name|;
    assert ext[1 + j..1 + j + n] == name;
    assert ext[j] == name[j - 1];
    assert ext[0] != name[0];
    assert !At(ext, 0, name) by {
      assert ext[0..n][0] == ext[0];
    }
    assert ext[1..1 + n] == name[..j] + name[..n - j];
    assert name[..j] + name[j..] == name;
    assert At(ext, 1, name);
    assert Strstr(ext, 0, name) == Some(1);
    assert |ext| - (1 + n) == j < n;
  }

  /** The search answers for every list whether the name occurs as a delimited part of it, if and only if the
      name does not repeat itself after a space. */
  lemma SearchIsRightIff(name: string)
    requires name != ""
    ensures (forall ext: string :: Search(ext, 0, name) <==> Present(ext, name)) <==> !RepeatsItself(name)
  {
    if RepeatsItself(name) {
      var j: nat :| RepeatsAt(name, j);
      SearchMisses(name, j);
      assert Present(Missed(name, j), name);
    } else {
      forall ext: string
        ensures Search(ext, 0, name) <==> Present(ext, name)
      {
        SearchFinds(ext, 0, name);
      }
    }
  }

  // ---- tokens ----

  /** The position of the first space, or the length. */
  function FirstSpace(s: string): (i: nat)
    ensures i <= |s| && (i < |s| ==> s[i] == ' ') && forall k :: 0 <= k < i ==> s[k] != ' '
  {
    if s == "" || s[0] == ' ' then 0 else 1 + FirstSpace(s[1..])
  }

  /** The pieces of a list between its spaces. */
  function Tokens(s: string): seq<string> {
    var i := FirstSpace(s);
    if i == |s| then [s] else [s[..i]] + Tokens(s[i + 1..])
  }

  /** A name without spaces occurs delimited exactly when it is one of the pieces. */
  lemma {:induction false} PresentIsToken(ext: string, name: string)
    requires ' ' !in name
    ensures Present(ext, name) <==> name in Tokens(ext)
    decreases |ext|
  {
    var i := FirstSpace(ext);
    if i == |ext| {
      WholeToken(ext, name);
    } else {
      PresentIsToken(ext[i + 1..], name);
      SplitAtSpace(ext, name, i);
    }
  }

  lemma WholeToken(ext: string, name: string)
    requires forall k :: 0 <= k < |ext| ==> ext[k] != ' '
    ensures Present(ext, name) <==> name == ext
  {
    assert DelimitedAt(ext, 0, ext);
  }

  /** A delimited occurrence is the first piece, or one in what follows the first space. */
  lemma SplitAtSpace(ext: string, name: string, i: nat)
    requires i < |ext| && ext[i] == ' ' && ' ' !in name && forall k :: 0 <= k < i ==> ext[k] != ' '
    ensures Present(ext, name) <==> name == ext[..i] || Present(ext[i + 1..], name)
  {
    var rest := ext[i + 1..];
    if name == ext[..i] {
      assert DelimitedAt(ext, 0, name);
    }
    if Present(rest, name) {
      var p: nat :| DelimitedAt(rest, p, name);
      ShiftDelimited(ext, name, i + 1, p);
    }
    if Present(ext, name) {
      var p: nat :| DelimitedAt(ext, p, name);
      if p <= i {
        FirstPiece(ext, name, i, p);
      } else {
        ShiftDelimited(ext, name, i + 1, p - (i + 1));
      }
    }
  }

  lemma ShiftDelimited(ext: string, name: string, k: nat, p: nat)
    requires 0 < k <= |ext| && ext[k - 1] == ' '
    ensures DelimitedAt(ext[k..], p, name) <==> DelimitedAt(ext, k + p, name)
  {
    if p + |name| <= |ext| - k {
      assert ext[k..][p..p + |name|] == ext[k + p..k + p + |name|];
    }
  }

  lemma FirstPiece(ext: string, name: string, i: nat, p: nat)
    requires i < |ext| && ext[i] == ' ' && ' ' !in name && p <= i && DelimitedAt(ext, p, name)
    requires forall k :: 0 <= k < i ==> ext[k] != ' '
    ensures p == 0 && name == ext[..i]
  {
    assert forall k :: 0 <= k < |name| ==> ext[p + k] == name[k];
    assert p + |name| <= i;
  }

  /** What the callers rely on: a name without spaces is found exactly when it is one of the pieces. */
  lemma SpacelessNameIsFound(ext: string, name: string)
    requires name != "" && ' ' !in name
    ensures Search(ext, 0, name) <==> name in Tokens(ext)
  {
    assert forall i: nat :: i < |name| ==> name[i] in name;
    SearchFinds(ext, 0, name);
    PresentIsToken(ext, name);
  }
}
