/** The application shell: the input buffer the user types into and the
    action that moves it into the store. */
module App {
  import Store

  /** ECMAScript's WhiteSpace and LineTerminator characters: what
      `String.prototype.trim` strips from both ends. */
  predicate IsWhiteSpace(c: char) {
    || c == '\t' || c == '\U{000B}' || c == '\U{000C}' || c == ' '
    || c == '\U{00A0}' || c == '\U{FEFF}' || c == '\U{1680}'
    || ('\U{2000}' <= c <= '\U{200A}')
    || c == '\U{202F}' || c == '\U{205F}' || c == '\U{3000}'
    || c == '\n' || c == '\r' || c == '\U{2028}' || c == '\U{2029}'
  }

  /** Empty or made of white space only. */
  predicate IsBlank(s: string) {
    forall i :: 0 <= i < |s| ==> IsWhiteSpace(s[i])
  }

  /** `s` without its leading white space; `TrimStartDropsWhiteSpace` shows
      that nothing else is dropped. */
  function TrimStart(s: string): (r: string)
    ensures |r| <= |s| && r == s[|s| - |r|..]
    ensures r == [] || !IsWhiteSpace(r[0])
  {
    if s != [] && IsWhiteSpace(s[0]) then TrimStart(s[1..]) else s
  }

  /** `s` without its trailing white space; `TrimEndDropsWhiteSpace` shows
      that nothing else is dropped. */
  function TrimEnd(s: string): (r: string)
    ensures |r| <= |s| && r == s[..|r|]
    ensures r == [] || !IsWhiteSpace(r[|r| - 1])
  {
    if s != [] && IsWhiteSpace(s[|s| - 1]) then TrimEnd(s[..|s| - 1]) else s
  }

  /** JavaScript's `s.trim()`: a contiguous piece of `s` that neither begins
      nor ends with white space; `TrimDropsOnlyWhiteSpace` shows that what is
      cut off on either side is white space. */
  function Trim(s: string): (r: string)
    ensures var lead := |s| - |TrimStart(s)|; lead + |r| <= |s| && r == s[lead..lead + |r|]
    ensures r == [] || (!IsWhiteSpace(r[0]) && !IsWhiteSpace(r[|r| - 1]))
  {
    var t := TrimStart(s);
    var lead := |s| - |t|;
    var r := TrimEnd(t);
    assert t == s[lead..] && r == t[..|r|];
    assert r == s[lead..lead + |r|];
    r
  }

  /** Only white space is cut off the front. */
  lemma {:induction false} TrimStartDropsWhiteSpace(s: string)
    ensures forall i :: 0 <= i < |s| - |TrimStart(s)| ==> IsWhiteSpace(s[i])
  {
    if s != [] && IsWhiteSpace(s[0]) {
      TrimStartDropsWhiteSpace(s[1..]);
      forall i | 1 <= i < |s| - |TrimStart(s)| ensures IsWhiteSpace(s[i]) {
        assert s[i] == s[1..][i - 1];
      }
    }
  }

  /** Only white space is cut off the back. */
  lemma {:induction false} TrimEndDropsWhiteSpace(s: string)
    ensures forall i :: |TrimEnd(s)| <= i < |s| ==> IsWhiteSpace(s[i])
  {
    if s != [] && IsWhiteSpace(s[|s| - 1]) {
      TrimEndDropsWhiteSpace(s[..|s| - 1]);
      forall i | |TrimEnd(s)| <= i < |s| - 1 ensures IsWhiteSpace(s[i]) {
        assert s[i] == s[..|s| - 1][i];
      }
    }
  }

  /** `trim()` drops white space only: everything before and after the
      trimmed piece is white space. */
  lemma TrimDropsOnlyWhiteSpace(s: string)
    ensures var lead := |s| - |TrimStart(s)|;
            && (forall i :: 0 <= i < lead ==> IsWhiteSpace(s[i]))
            && (forall i :: lead + |Trim(s)| <= i < |s| ==> IsWhiteSpace(s[i]))
  {
    var t := TrimStart(s);
    var lead := |s| - |t|;
    var r := TrimEnd(t);
    assert Trim(s) == r;
    TrimStartDropsWhiteSpace(s);
    TrimEndDropsWhiteSpace(t);
    forall i | lead + |r| <= i < |s| ensures IsWhiteSpace(s[i]) {
      assert s[i] == t[i - lead];
    }
  }

  lemma {:induction false} TrimStartEmptyIffBlank(s: string)
    ensures TrimStart(s) == [] <==> IsBlank(s)
  {
    if s != [] && IsWhiteSpace(s[0]) {
      TrimStartEmptyIffBlank(s[1..]);
      assert IsBlank(s[1..]) <==> IsBlank(s) by {
        assert forall i :: 0 <= i < |s| - 1 ==> s[1..][i] == s[i + 1];
      }
    }
  }

  lemma {:induction false} TrimEndEmptyIffBlank(s: string)
    ensures TrimEnd(s) == [] <==> IsBlank(s)
  {
    if s != [] && IsWhiteSpace(s[|s| - 1]) {
      TrimEndEmptyIffBlank(s[..|s| - 1]);
      assert IsBlank(s[..|s| - 1]) <==> IsBlank(s) by {
        assert forall i :: 0 <= i < |s| - 1 ==> s[..|s| - 1][i] == s[i];
      }
    }
  }

  /** `s.trim()` is the empty string, hence falsy, exactly when `s` is
      blank. */
  lemma TrimEmptyIffBlank(s: string)
    ensures Trim(s) == [] <==> IsBlank(s)
  {
    var t := TrimStart(s);
    TrimStartEmptyIffBlank(s);
    TrimEndEmptyIffBlank(t);
  }

  /** The component's state: the text being typed and the shared store. */
  class AppState {
    var currentText: string
    const store: Store.TextStore

    /** The input buffer starts empty. */
    constructor (store: Store.TextStore)
      ensures this.store == store && currentText == ""
    {
      this.store := store;
      currentText := "";
    }

    /** The ADD action. A blank buffer changes nothing, neither the store nor
        the buffer. Otherwise the buffer is stored as typed, untrimmed, and
        then cleared. */
    method HandleAdd()
      modifies this`currentText, store`savedTexts
      ensures IsBlank(old(currentText)) ==>
                currentText == old(currentText) && store.savedTexts == old(store.savedTexts)
      ensures !IsBlank(old(currentText)) ==>
                && currentText == ""
                && store.savedTexts == old(store.savedTexts) + [old(currentText)]
                && |store.savedTexts| == |old(store.savedTexts)| + 1
    {
      TrimEmptyIffBlank(currentText);
      if Trim(currentText) != "" {
        store.AddText(currentText);
        currentText := "";
      }
    }
  }
}
