/** ALTER TABLE RENAME: the tokens of a statement that stand for the renamed thing are collected in a
    list, and the text of the statement is edited in place. */
module RenameEdit {

  const NUL: char := '\0'

  /** A parse tree element and the token that created it: n characters of the statement, from z on.
      Element 0 stands for the null pointer. */
  datatype RenameToken = RenameToken(p: nat, z: nat, n: nat)

  /** sqlite3IsIdChar */
  predicate IsIdChar(c: char) {
    'a' <= c <= 'z' || 'A' <= c <= 'Z' || '0' <= c <= '9' || c == '_' || c == '$' || c as int >= 0x80
  }

  // ---------- quoting ----------

  function Doubled(s: string): (r: string)
    ensures |r| >= |s|
  {
    if s == "" then "" else (if s[0] == '"' then "\"\"" else [s[0]]) + Doubled(s[1..])
  }

  /** The format "%w" between double quotes. */
  function Quoted(s: string): (r: string)
    ensures |r| >= |s| + 2
  {
    "\"" + Doubled(s) + "\""
  }

  /** What comes of reading a quoted text: what it stands for, and what follows it. */
  datatype Reading = Unended | Read(text: string, rest: string)

  function Front(c: string, r: Reading): Reading {
    if r.Read? then Read(c + r.text, r.rest) else Unended
  }

  /** The loop of sqlite3Dequote from behind the opening quote on. */
  function Dequoted(z: string): Reading {
    if z == "" then Unended
    else if z[0] != '"' then Front([z[0]], Dequoted(z[1..]))
    else if |z| > 1 && z[1] == '"' then Front("\"", Dequoted(z[2..]))
    else Read("", z[1..])
  }

  /** A quoted name is read back as the name, and what follows it is left over, exactly if what follows is
      no double quote. */
  lemma {:induction false} QuoteRoundTrip(s: string, tail: string)
    ensures Quoted(s)[0] == '"'
    ensures Dequoted(Quoted(s)[1..] + tail) == Read(s, tail) <==> tail == "" || tail[0] != '"'
  {
    assert Quoted(s)[1..] + tail == Doubled(s) + ("\"" + tail);
    if tail == "" || tail[0] != '"' {
      BodyIsRead(s, "\"" + tail);
      assert Dequoted("\"" + tail) == Read("", tail);
      assert s + "" == s;
    } else {
      BodyIsRead(s, "\"" + tail);
      var z := "\"" + tail;
      assert Dequoted(z) == Front("\"", Dequoted(z[2..]));
      if Dequoted(z).Read? {
        assert Dequoted(z).text == "\"" + Dequoted(z[2..]).text;
        assert |s + Dequoted(z).text| > |s|;
      }
    }
  }

  lemma {:induction false} BodyIsRead(s: string, tail: string)
    ensures Dequoted(Doubled(s) + tail) == Front(s, Dequoted(tail))
  {
    var z := Doubled(s) + tail;
    if s == "" {
      assert z == tail;
      if Dequoted(tail).Read? { assert "" + Dequoted(tail).text == Dequoted(tail).text; }
    } else {
      BodyIsRead(s[1..], tail);
      var head := if s[0] == '"' then "\"\"" else [s[0]];
      assert z == head + (Doubled(s[1..]) + tail);
      assert z[|head|..] == Doubled(s[1..]) + tail;
      if Dequoted(tail).Read? {
        assert [s[0]] + (s[1..] + Dequoted(tail).text) == s + Dequoted(tail).text;
      }
    }
  }

  // ---------- simultaneous substitution ----------

  predicate Apart(s: RenameToken, t: RenameToken) {
    s.z + s.n <= t.z || t.z + t.n <= s.z
  }

  /** The tokens are not empty, lie inside the statement, and do not overlap. */
  ghost predicate Placed(zSql: string, tokens: set<RenameToken>) {
    && (forall t | t in tokens :: t.n > 0 && t.z + t.n <= |zSql|)
    && (forall s, t | s in tokens && t in tokens && s != t :: Apart(s, t))
  }

  /** The text for a token that starts at position i of the statement. */
  function Replacement(zSql: string, i: nat, zNew: string, bQuote: bool): string
    requires i < |zSql|
  {
    if bQuote || !IsIdChar(zSql[i]) then Quoted(zNew) else zNew
  }

  /** The statement from position i on, with every token replaced at once. */
  ghost function Substituted(zSql: string, tokens: set<RenameToken>, zNew: string, bQuote: bool, i: nat): string
    requires Placed(zSql, tokens) && i <= |zSql|
    decreases |zSql| - i
  {
    if i == |zSql| then ""
    else if t :| t in tokens && t.z == i then
      Replacement(zSql, i, zNew, bQuote) + Substituted(zSql, tokens, zNew, bQuote, i + t.n)
    else [zSql[i]] + Substituted(zSql, tokens, zNew, bQuote, i + 1)
  }

  /** At a token, the replacement comes. */
  lemma Replaced(zSql: string, tokens: set<RenameToken>, zNew: string, bQuote: bool, t: RenameToken)
    requires Placed(zSql, tokens) && t in tokens
    ensures Substituted(zSql, tokens, zNew, bQuote, t.z) ==
            Replacement(zSql, t.z, zNew, bQuote) + Substituted(zSql, tokens, zNew, bQuote, t.z + t.n)
  {
    SameStart(zSql, tokens, t);
  }

  /** Two tokens that start at the same place are one. */
  lemma SameStart(zSql: string, tokens: set<RenameToken>, t: RenameToken)
    requires Placed(zSql, tokens) && t in tokens
    ensures forall s | s in tokens && s.z == t.z :: s == t
  {
  }

  lemma NotReplaced(zSql: string, tokens: set<RenameToken>, zNew: string, bQuote: bool, i: nat)
    requires Placed(zSql, tokens) && i < |zSql| && forall t | t in tokens :: t.z != i
    ensures Substituted(zSql, tokens, zNew, bQuote, i) == [zSql[i]] + Substituted(zSql, tokens, zNew, bQuote, i + 1)
  {
  }

  /** Where no token starts, the text is kept. */
  lemma {:induction false} Kept(zSql: string, tokens: set<RenameToken>, zNew: string, bQuote: bool, i: nat, j: nat)
    requires Placed(zSql, tokens) && i <= j <= |zSql| && forall t | t in tokens :: !(i <= t.z < j)
    ensures Substituted(zSql, tokens, zNew, bQuote, i) == zSql[i..j] + Substituted(zSql, tokens, zNew, bQuote, j)
    decreases j - i
  {
    hide *;
    if i < j {
      NotReplaced(zSql, tokens, zNew, bQuote, i);
      Kept(zSql, tokens, zNew, bQuote, i + 1, j);
      assert zSql[i..j] == [zSql[i]] + zSql[i + 1..j];
    }
  }

  /** The text for a token that starts with c: where names are to be quoted, or the token is, a text in
      double quotes that reads back as the name; for a token that starts with a letter the name itself. */
  ghost predicate NameText(c: char, zNew: string, bQuote: bool, text: string) {
    && (bQuote || c == '"' || c == '\'' || c == '[' || c == '`' ==>
          text != "" && text[0] == '"' && Dequoted(text[1..]) == Read(zNew, ""))
    && (!bQuote && ('a' <= c <= 'z' || 'A' <= c <= 'Z' || c == '_') ==> text == zNew)
  }

  lemma ReplacementIsName(zSql: string, i: nat, zNew: string, bQuote: bool)
    requires i < |zSql|
    ensures NameText(zSql[i], zNew, bQuote, Replacement(zSql, i, zNew, bQuote))
  {
    QuoteRoundTrip(zNew, "");
    assert Quoted(zNew)[1..] + "" == Quoted(zNew)[1..];
  }

  predicate Composed(out: string, before: string, text: string, rest: string) {
    out == before + (text + rest)
  }

  /** In the edited statement such a text stands, for a token that starts with c, before the given rest. */
  ghost predicate NamedAt(c: char, zNew: string, bQuote: bool, rest: string, out: string) {
    exists before, text :: Composed(out, before, text, rest) && NameText(c, zNew, bQuote, text)
  }

  /** At the place of token t the edited statement has such a text, and behind it the rest, edited. */
  ghost predicate Named(zSql: string, tokens: set<RenameToken>, zNew: string, bQuote: bool, t: RenameToken,
                        out: string)
  {
    Placed(zSql, tokens) && t in tokens &&
    NamedAt(zSql[t.z], zNew, bQuote, Substituted(zSql, tokens, zNew, bQuote, t.z + t.n), out)
  }

  /** No token reaches across position i. */
  ghost predicate Boundary(tokens: set<RenameToken>, i: nat) {
    forall s | s in tokens :: !(s.z < i < s.z + s.n)
  }

  lemma {:induction false} AllNamed(zSql: string, tokens: set<RenameToken>, zNew: string, bQuote: bool,
                                    t: RenameToken, i: nat, c: char, rest: string)
    requires Placed(zSql, tokens) && t in tokens && i <= t.z < t.z + t.n <= |zSql| && Boundary(tokens, i)
    requires c == zSql[t.z] && rest == Substituted(zSql, tokens, zNew, bQuote, t.z + t.n)
    ensures NamedAt(c, zNew, bQuote, rest, Substituted(zSql, tokens, zNew, bQuote, i))
    decreases t.z - i
  {
    if i == t.z {
      hide *;
      Replaced(zSql, tokens, zNew, bQuote, t);
      ReplacementIsName(zSql, t.z, zNew, bQuote);
      FirstNamed(c, zNew, bQuote, Replacement(zSql, t.z, zNew, bQuote), rest);
    } else if s :| s in tokens && s.z == i {
      hide *;
      Past(zSql, tokens, s, t);
      Replaced(zSql, tokens, zNew, bQuote, s);
      AllNamed(zSql, tokens, zNew, bQuote, t, i + s.n, c, rest);
      MoreBefore(c, zNew, bQuote, rest, Replacement(zSql, i, zNew, bQuote),
                 Substituted(zSql, tokens, zNew, bQuote, i + s.n));
    } else {
      hide *;
      NextBoundary(tokens, i);
      NotReplaced(zSql, tokens, zNew, bQuote, i);
      AllNamed(zSql, tokens, zNew, bQuote, t, i + 1, c, rest);
      MoreBefore(c, zNew, bQuote, rest, [zSql[i]], Substituted(zSql, tokens, zNew, bQuote, i + 1));
    }
  }

  lemma NextBoundary(tokens: set<RenameToken>, i: nat)
    requires Boundary(tokens, i) && forall s | s in tokens :: s.z != i
    ensures Boundary(tokens, i + 1)
  {
  }

  lemma Past(zSql: string, tokens: set<RenameToken>, s: RenameToken, t: RenameToken)
    requires Placed(zSql, tokens) && s in tokens && t in tokens && s.z < t.z
    ensures 0 < s.n && s.z + s.n <= t.z && Boundary(tokens, s.z + s.n)
  {
    assert Apart(s, t);
    forall u | u in tokens ensures !(u.z < s.z + s.n < u.z + u.n) {
      if u != s { assert Apart(u, s); }
    }
  }

  lemma FirstNamed(c: char, zNew: string, bQuote: bool, text: string, rest: string)
    requires NameText(c, zNew, bQuote, text)
    ensures NamedAt(c, zNew, bQuote, rest, text + rest)
  {
    hide NameText;
    assert "" + (text + rest) == text + rest;
    assert Composed(text + rest, "", text, rest);
  }

  lemma MoreBefore(c: char, zNew: string, bQuote: bool, rest: string, more: string, out: string)
    requires NamedAt(c, zNew, bQuote, rest, out)
    ensures NamedAt(c, zNew, bQuote, rest, more + out)
  {
    hide NameText;
    var before, text :| Composed(out, before, text, rest) && NameText(c, zNew, bQuote, text);
    assert more + (before + (text + rest)) == (more + before) + (text + rest);
    assert Composed(more + out, more + before, text, rest);
  }

  /** A quoted name before a double quote is not read back.  In `SELECT a"x"` the column a has the alias x;
      after a has been renamed to b, quoted, one name stands there in place of two. */
  lemma MergesWithTheNext()
    ensures var zSql, t := "SELECT a\"x\"", RenameToken(1, 7, 1);
            Placed(zSql, {t}) && Substituted(zSql, {t}, "b", true, 0) == "SELECT \"b\"\"x\""
    ensures Dequoted("b\"\"x\"") == Read("b\"x", "")
  {
    MergedName();
    var zSql, t := "SELECT a\"x\"", RenameToken(1, 7, 1);
    assert Placed(zSql, {t});
    assert Doubled("b") == "b" + Doubled("") == "b";
    assert Replacement(zSql, 7, "b", true) == "\"b\"";
    assert zSql[0..7] == "SELECT " && zSql[8..11] == "\"x\"";
    hide Substituted, Doubled, Dequoted, Placed, Replacement;
    Kept(zSql, {t}, "b", true, 0, 7);
    Replaced(zSql, {t}, "b", true, t);
    Kept(zSql, {t}, "b", true, 8, 11);
    AtEnd(zSql, {t}, "b", true);
  }

  lemma MergedName()
    ensures Dequoted("b\"\"x\"") == Read("b\"x", "")
  {
    assert "b\"\"x\""[1..] == "\"\"x\"" && "\"\"x\""[2..] == "x\"" && "x\""[1..] == "\"" && "\""[1..] == "";
    assert Dequoted("\"") == Read("", "");
    assert Dequoted("x\"") == Read("x", "");
    assert Dequoted("\"\"x\"") == Read("\"x", "");
  }

  /** Every token already has the text that is to replace it. */
  ghost predicate Unchanged(zSql: string, tokens: set<RenameToken>, zNew: string, bQuote: bool)
    requires Placed(zSql, tokens)
  {
    forall t | t in tokens :: Replacement(zSql, t.z, zNew, bQuote) == zSql[t.z..t.z + t.n]
  }

  /** Replacing every token by its own text changes nothing. */
  lemma {:induction false} RenamedToItself(zSql: string, tokens: set<RenameToken>, zNew: string, bQuote: bool, i: nat)
    requires Placed(zSql, tokens) && i <= |zSql| && Unchanged(zSql, tokens, zNew, bQuote)
    ensures Substituted(zSql, tokens, zNew, bQuote, i) == zSql[i..]
    decreases |zSql| - i
  {
    hide *;
    if i == |zSql| {
      AtEnd(zSql, tokens, zNew, bQuote);
    } else if t :| t in tokens && t.z == i {
      Own(zSql, tokens, zNew, bQuote, t);
      Replaced(zSql, tokens, zNew, bQuote, t);
      RenamedToItself(zSql, tokens, zNew, bQuote, i + t.n);
      assert zSql[i..] == zSql[i..i + t.n] + zSql[i + t.n..];
    } else {
      NotReplaced(zSql, tokens, zNew, bQuote, i);
      RenamedToItself(zSql, tokens, zNew, bQuote, i + 1);
      assert zSql[i..] == [zSql[i]] + zSql[i + 1..];
    }
  }

  lemma AtEnd(zSql: string, tokens: set<RenameToken>, zNew: string, bQuote: bool)
    requires Placed(zSql, tokens)
    ensures Substituted(zSql, tokens, zNew, bQuote, |zSql|) == ""
  {
  }

  lemma Own(zSql: string, tokens: set<RenameToken>, zNew: string, bQuote: bool, t: RenameToken)
    requires Placed(zSql, tokens) && Unchanged(zSql, tokens, zNew, bQuote) && t in tokens
    ensures 0 < t.n && t.z + t.n <= |zSql| && Replacement(zSql, t.z, zNew, bQuote) == zSql[t.z..t.z + t.n]
  {
  }

  /** The edited statement is a C string again: its text has no NUL inside. */
  lemma {:induction false} NoNul(zSql: string, tokens: set<RenameToken>, zNew: string, bQuote: bool, i: nat)
    requires Placed(zSql, tokens) && i <= |zSql| && NUL !in zSql && NUL !in zNew
    ensures NUL !in Substituted(zSql, tokens, zNew, bQuote, i)
    decreases |zSql| - i
  {
    hide *;
    if i == |zSql| {
      NothingLeft(zSql, tokens, zNew, bQuote);
    } else if t :| t in tokens && t.z == i {
      Inside(zSql, tokens, t);
      ReplacementNoNul(zSql, i, zNew, bQuote);
      Replaced(zSql, tokens, zNew, bQuote, t);
      NoNul(zSql, tokens, zNew, bQuote, i + t.n);
    } else {
      NotReplaced(zSql, tokens, zNew, bQuote, i);
      NoNul(zSql, tokens, zNew, bQuote, i + 1);
    }
  }

  lemma NothingLeft(zSql: string, tokens: set<RenameToken>, zNew: string, bQuote: bool)
    requires Placed(zSql, tokens)
    ensures Substituted(zSql, tokens, zNew, bQuote, |zSql|) == ""
  {
  }

  lemma Inside(zSql: string, tokens: set<RenameToken>, t: RenameToken)
    requires Placed(zSql, tokens) && t in tokens
    ensures t.n > 0 && t.z + t.n <= |zSql|
  {
  }

  lemma ReplacementNoNul(zSql: string, i: nat, zNew: string, bQuote: bool)
    requires i < |zSql| && NUL !in zNew
    ensures NUL !in Replacement(zSql, i, zNew, bQuote)
  {
    DoubledNoNul(zNew);
  }

  lemma {:induction false} DoubledNoNul(s: string)
    requires NUL !in s
    ensures NUL !in Doubled(s)
  {
    if s != "" {
      DoubledNoNul(s[1..]);
    }
  }

  // ---------- the lists ----------

  /** The tokens of a list. */
  ghost function Tokens(list: seq<RenameToken>): set<RenameToken> {
    set t | t in list
  }

  /** A list without its k-th token. */
  function Without(list: seq<RenameToken>, k: nat): (r: seq<RenameToken>)
    requires k < |list|
    ensures |r| == |list| - 1
  {
    list[..k] + list[k + 1..]
  }

  lemma WithoutOne(list: seq<RenameToken>, k: nat)
    requires k < |list|
    ensures multiset(list) == multiset(Without(list, k)) + multiset{list[k]}
  {
    assert list == list[..k] + [list[k]] + list[k + 1..];
  }

  /** Where the first token of a parse tree element is; the length of the list if there is none. */
  function Position(list: seq<RenameToken>, p: nat): (k: nat)
    ensures k <= |list| && (k < |list| ==> list[k].p == p) && forall j | 0 <= j < k :: list[j].p != p
  {
    if list == [] || list[0].p == p then 0 else 1 + Position(list[1..], p)
  }

  /** A token that has just been mapped is the one found for its element, and taking it out gives the
      list as it was before. */
  lemma FindUndoesMap(list: seq<RenameToken>, p: nat, z: nat, n: nat)
    ensures var mapped := [RenameToken(p, z, n)] + list;
            Position(mapped, p) == 0 && Without(mapped, Position(mapped, p)) == list
  {
    var mapped := [RenameToken(p, z, n)] + list;
    assert mapped[1..] == list && mapped[..0] == [];
  }

  class RenameCtx {
    var pList: seq<RenameToken>
    var nList: nat

    constructor ()
      ensures pList == [] && nList == 0
    {
      pList, nList := [], 0;
    }

    /** renameColumnTokenNext: the token furthest to the right is taken out of the list. */
    method RenameColumnTokenNext() returns (best: RenameToken)
      requires pList != []
      modifies this`pList
      ensures exists k :: 0 <= k < |old(pList)| && old(pList)[k] == best && pList == Without(old(pList), k)
      ensures forall t | t in old(pList) :: t.z <= best.z
    {
      var iBest, i := 0, 1;
      while i < |pList|
        invariant 0 <= iBest < i <= |pList|
        invariant forall j | 0 <= j < i :: pList[j].z <= pList[iBest].z
      {
        if pList[i].z > pList[iBest].z { iBest := i; }
        i := i + 1;
      }
      best := pList[iBest];
      pList := Without(pList, iBest);
    }
  }

  class Parse {
    var pRename: seq<RenameToken>

    constructor ()
      ensures pRename == []
    {
      pRename := [];
    }

    /** sqlite3RenameTokenMap: the token is put in front of the list. */
    method RenameTokenMap(p: nat, z: nat, n: nat)
      modifies this
      ensures pRename == [RenameToken(p, z, n)] + old(pRename)
    {
      pRename := [RenameToken(p, z, n)] + pRename;
    }

    /** sqlite3RenameTokenRemap: the first token of pFrom, if there is one, becomes a token of pTo. */
    method RenameTokenRemap(pTo: nat, pFrom: nat)
      modifies this
      ensures var k := Position(old(pRename), pFrom);
              if k < |old(pRename)| then pRename == old(pRename)[k := old(pRename)[k].(p := pTo)]
              else pRename == old(pRename)
    {
      var i := 0;
      while i < |pRename|
        invariant i <= |pRename| && pRename == old(pRename)
        invariant forall j | 0 <= j < i :: pRename[j].p != pFrom
      {
        if pRename[i].p == pFrom {
          assert Position(old(pRename), pFrom) == i;
          pRename := pRename[i := pRename[i].(p := pTo)];
          return;
        }
        i := i + 1;
      }
    }

    /** renameTokenFind: the first token of an element, if there is one, moves to the front of the
        other list.  No token is lost or doubled. */
    method RenameTokenFind(pCtx: RenameCtx, pPtr: nat)
      requires pPtr != 0
      modifies this, pCtx
      ensures var k := Position(old(pRename), pPtr);
              if k < |old(pRename)| then
                && pRename == Without(old(pRename), k) && pCtx.pList == [old(pRename)[k]] + old(pCtx.pList)
                && pCtx.nList == old(pCtx.nList) + 1
              else pRename == old(pRename) && pCtx.pList == old(pCtx.pList) && pCtx.nList == old(pCtx.nList)
      ensures multiset(pRename) + multiset(pCtx.pList) == old(multiset(pRename) + multiset(pCtx.pList))
      ensures pCtx.nList - |pCtx.pList| == old(pCtx.nList - |pCtx.pList|)
    {
      var i := 0;
      while i < |pRename|
        invariant i <= |pRename| && pRename == old(pRename)
        invariant pCtx.pList == old(pCtx.pList) && pCtx.nList == old(pCtx.nList)
        invariant forall j | 0 <= j < i :: pRename[j].p != pPtr
      {
        if pRename[i].p == pPtr {
          assert Position(old(pRename), pPtr) == i;
          WithoutOne(pRename, i);
          var pToken := pRename[i];
          pRename := Without(pRename, i);
          pCtx.pList := [pToken] + pCtx.pList;
          pCtx.nList := pCtx.nList + 1;
          return;
        }
        i := i + 1;
      }
    }
  }

  // ---------- editing the statement ----------

  /** The tokens of the list are where they should be, and no token is listed twice. */
  ghost predicate Listed(zSql: string, list: seq<RenameToken>) {
    Placed(zSql, Tokens(list)) && forall i, j | 0 <= i < j < |list| :: list[i] != list[j]
  }

  /** n characters of a text are replaced. */
  function Spliced(text: string, off: nat, n: nat, zReplace: string): string
    requires off + n <= |text|
  {
    text[..off] + zReplace + text[off + n..]
  }

  /** The tokens left in the list lie before position c, the others from there on. */
  ghost predicate Split(tokens: set<RenameToken>, left: seq<RenameToken>, c: nat) {
    && (forall i, j | 0 <= i < j < |left| :: left[i] != left[j])
    && (forall t | t in left :: t in tokens && t.z + t.n <= c)
    && (forall t | t in tokens && t !in left :: t.z >= c)
  }

  /** How far the edit has come: everything from position c on is done. */
  ghost predicate Edited(zSql: string, tokens: set<RenameToken>, zNew: string, bQuote: bool,
                         left: seq<RenameToken>, text: string, c: nat)
    requires Placed(zSql, tokens)
  {
    c <= |zSql| && text == zSql[..c] + Substituted(zSql, tokens, zNew, bQuote, c) && Split(tokens, left, c)
  }

  lemma EditStart(zSql: string, left: seq<RenameToken>, zNew: string, bQuote: bool)
    requires Listed(zSql, left)
    ensures Edited(zSql, Tokens(left), zNew, bQuote, left, zSql, |zSql|)
  {
    assert zSql[..|zSql|] + "" == zSql;
  }

  /** The token furthest to the right leaves the list. */
  lemma SplitStep(zSql: string, tokens: set<RenameToken>, left: seq<RenameToken>, c: nat, k: nat)
    requires Placed(zSql, tokens) && Split(tokens, left, c) && c <= |zSql|
    requires k < |left| && forall t | t in left :: t.z <= left[k].z
    ensures var t := left[k];
            && t in tokens && 0 < t.n && t.z + t.n <= c
            && (forall s | s in tokens :: !(t.z + t.n <= s.z < c))
            && Split(tokens, Without(left, k), t.z)
  {
    var t := left[k];
    assert t in left;
    var rest := Without(left, k);
    forall s | s in rest ensures s in tokens && s.z + s.n <= t.z {
      assert s in left && s != t && Apart(s, t);
    }
    forall s | s in tokens && s !in rest ensures s.z >= t.z {
      if s in left && s != t { StillIn(left, k, s); }
    }
  }

  lemma StillIn(left: seq<RenameToken>, k: nat, s: RenameToken)
    requires k < |left| && s in left && s != left[k]
    ensures s in Without(left, k)
  {
    var i :| 0 <= i < |left| && left[i] == s;
    if i < k {
      assert Without(left, k)[i] == s;
    } else {
      assert Without(left, k)[i - 1] == s;
    }
  }

  lemma SpliceText(zSql: string, c: nat, tail: string, off: nat, n: nat, zReplace: string)
    requires off + n <= c <= |zSql|
    ensures Spliced(zSql[..c] + tail, off, n, zReplace) == zSql[..off] + (zReplace + (zSql[off + n..c] + tail))
  {
    var text := zSql[..c] + tail;
    assert text[..off] == zSql[..off];
    assert text[off + n..] == zSql[off + n..c] + tail;
  }

  /** The token furthest to the right is replaced. */
  lemma EditStep(zSql: string, tokens: set<RenameToken>, zNew: string, bQuote: bool,
                 left: seq<RenameToken>, text: string, c: nat, k: nat)
    requires Placed(zSql, tokens) && Edited(zSql, tokens, zNew, bQuote, left, text, c)
    requires k < |left| && forall t | t in left :: t.z <= left[k].z
    ensures var t := left[k];
            && t.z + t.n <= |text| && t.z + t.n <= |zSql| && 0 < t.n
            && Edited(zSql, tokens, zNew, bQuote, Without(left, k),
                      Spliced(text, t.z, t.n, Replacement(zSql, t.z, zNew, bQuote)), t.z)
  {
    hide Substituted, Placed, Split, Replacement, Spliced, Without;
    var t := left[k];
    SplitStep(zSql, tokens, left, c, k);
    Kept(zSql, tokens, zNew, bQuote, t.z + t.n, c);
    Replaced(zSql, tokens, zNew, bQuote, t);
    SpliceText(zSql, c, Substituted(zSql, tokens, zNew, bQuote, c), t.z, t.n, Replacement(zSql, t.z, zNew, bQuote));
  }

  lemma EditEnd(zSql: string, tokens: set<RenameToken>, zNew: string, bQuote: bool, text: string, c: nat)
    requires Placed(zSql, tokens) && Edited(zSql, tokens, zNew, bQuote, [], text, c)
    ensures text == Substituted(zSql, tokens, zNew, bQuote, 0)
  {
    Kept(zSql, tokens, zNew, bQuote, 0, c);
  }

  /** One replacement in the buffer, of which nOut characters are text, with a NUL behind them. */
  method Splice(zOut: array<char>, nOut: nat, off: nat, n: nat, zReplace: string) returns (nOut': nat)
    requires off + n <= nOut < zOut.Length && nOut - n + |zReplace| < zOut.Length && zOut[nOut] == NUL
    modifies zOut
    ensures nOut' == nOut - n + |zReplace| && zOut[nOut'] == NUL
    ensures zOut[..nOut'] == Spliced(old(zOut[..nOut]), off, n, zReplace)
  {
    ghost var text := zOut[..nOut];
    nOut' := MakeRoom(zOut, nOut, off, n, |zReplace|);
    ghost var moved := zOut[..nOut'];
    Memcpy(zOut, off, zReplace);
    ghost var after := zOut[..nOut'];
    assert after[..off] == moved[..off] && after[off + |zReplace|..] == moved[off + |zReplace|..];
    Parts(after, text, off, n, zReplace);
  }

  /** The text behind the n characters from off on moves, so that they become size characters. */
  method MakeRoom(zOut: array<char>, nOut: nat, off: nat, n: nat, size: nat) returns (nOut': nat)
    requires off + n <= nOut < zOut.Length && nOut - n + size < zOut.Length && zOut[nOut] == NUL
    modifies zOut
    ensures nOut' == nOut - n + size && zOut[nOut'] == NUL
    ensures zOut[..nOut'][..off] == old(zOut[..nOut])[..off]
    ensures zOut[..nOut'][off + size..] == old(zOut[..nOut])[off + n..]
  {
    nOut' := nOut;
    if n != size {
      ghost var before := zOut[..];
      Memmove(zOut, off + size, off + n, nOut - (off + n));
      nOut' := nOut + size - n;
      zOut[nOut'] := NUL;
      Moved(before, zOut[..], nOut, off, n, size);
      assert zOut[..nOut'] == zOut[..][..nOut'] && before[..nOut] == old(zOut[..nOut]);
    }
  }

  /** Where the text behind the place has moved, and the text before it has stayed. */
  lemma Moved(before: string, after: string, nOut: nat, off: nat, n: nat, size: nat)
    requires |before| == |after| && off + n <= nOut < |before| && nOut - n + size < |before|
    requires forall k | 0 <= k < off :: after[k] == before[k]
    requires forall k | off + size <= k < nOut - n + size :: after[k] == before[k - size + n]
    ensures after[..nOut - n + size][..off] == before[..nOut][..off]
    ensures after[..nOut - n + size][off + size..] == before[..nOut][off + n..]
  {
  }

  lemma Parts(after: string, text: string, off: nat, n: nat, zReplace: string)
    requires off + n <= |text| && |after| == |text| - n + |zReplace|
    requires after[..off] == text[..off] && after[off..off + |zReplace|] == zReplace
    requires after[off + |zReplace|..] == text[off + n..]
    ensures after == Spliced(text, off, n, zReplace)
  {
    assert after == after[..off] + after[off..off + |zReplace|] + after[off + |zReplace|..];
  }

  /** memmove: the ranges may overlap. */
  method Memmove(buffer: array<char>, to: nat, from: nat, size: nat)
    requires to + size <= buffer.Length && from + size <= buffer.Length
    modifies buffer
    ensures forall k | 0 <= k < buffer.Length ::
              buffer[k] == if to <= k < to + size then old(buffer[from + (k - to)]) else old(buffer[k])
  {
    forall k | to <= k < to + size { buffer[k] := buffer[from + (k - to)]; }
  }

  method Memcpy(buffer: array<char>, to: nat, text: string)
    requires to + |text| <= buffer.Length
    modifies buffer
    ensures forall k | 0 <= k < buffer.Length ::
              buffer[k] == if to <= k < to + |text| then text[k - to] else old(buffer[k])
  {
    forall k | 0 <= k < |text| { buffer[to + k] := text[k]; }
  }

  /** Room for k names of q characters. */
  function Room(k: nat, q: nat): nat { k * q }

  lemma RoomForOneLess(k: nat, q: nat)
    requires k > 0
    ensures Room(k - 1, q) == Room(k, q) - q
  {
  }

  lemma {:induction false} RoomGrows(a: nat, b: nat, q: nat)
    requires a <= b
    ensures Room(a, q) <= Room(b, q)
    decreases b - a
  {
    if a < b {
      RoomForOneLess(b, q);
      RoomGrows(a, b - 1, q);
    }
  }

  /** renameEditSql: whatever the order of the list, all its tokens are replaced at once, in a buffer
      that is large enough from the start. */
  method RenameEditSql(pRename: RenameCtx, zSql: string, zNew: string, bQuote: bool)
      returns (zOut: array<char>, nOut: nat)
    requires Listed(zSql, pRename.pList) && |pRename.pList| <= pRename.nList
    modifies pRename`pList
    ensures pRename.pList == [] && nOut < zOut.Length && zOut[nOut] == NUL
    ensures zOut[..nOut] == Substituted(zSql, Tokens(old(pRename.pList)), zNew, bQuote, 0)
    ensures forall t | t in old(pRename.pList) ::
              Named(zSql, Tokens(old(pRename.pList)), zNew, bQuote, t, zOut[..nOut])
  {
    var zQuot := Quoted(zNew);
    RoomGrows(|pRename.pList|, pRename.nList, |zQuot|);
    zOut := new char[|zSql| + Room(pRename.nList, |zQuot|) + 1](_ => NUL);
    nOut := |zSql|;
    Memcpy(zOut, 0, zSql);
    ghost var tokens, c: nat := Tokens(pRename.pList), |zSql|;
    EditStart(zSql, pRename.pList, zNew, bQuote);
    assert zOut[..nOut] == zSql;
    hide *;
    while pRename.pList != []
      invariant nOut < zOut.Length && zOut[nOut] == NUL && fresh(zOut)
      invariant nOut + Room(|pRename.pList|, |Quoted(zNew)|) < zOut.Length
      invariant Edited(zSql, tokens, zNew, bQuote, pRename.pList, zOut[..nOut], c)
      decreases |pRename.pList|
    {
      nOut, c := ReplaceLast(pRename, zSql, zNew, bQuote, zOut, nOut, tokens, c);
    }
    EditEnd(zSql, tokens, zNew, bQuote, zOut[..nOut], c);
    EveryNamed(zSql, old(pRename.pList), zNew, bQuote);
  }

  lemma EveryNamed(zSql: string, list: seq<RenameToken>, zNew: string, bQuote: bool)
    requires Listed(zSql, list)
    ensures forall t | t in list ::
              Named(zSql, Tokens(list), zNew, bQuote, t, Substituted(zSql, Tokens(list), zNew, bQuote, 0))
  {
    var tokens := Tokens(list);
    forall t | t in list
      ensures Named(zSql, tokens, zNew, bQuote, t, Substituted(zSql, tokens, zNew, bQuote, 0))
    {
      assert t in tokens && Boundary(tokens, 0);
      hide NamedAt, Substituted;
      AllNamed(zSql, tokens, zNew, bQuote, t, 0, zSql[t.z], Substituted(zSql, tokens, zNew, bQuote, t.z + t.n));
    }
  }

  lemma IsReplacement(zSql: string, i: nat, zNew: string, bQuote: bool)
    requires i < |zSql|
    ensures Replacement(zSql, i, zNew, bQuote) == if IsIdChar(zSql[i]) && !bQuote then zNew else Quoted(zNew)
    ensures |Replacement(zSql, i, zNew, bQuote)| <= |Quoted(zNew)|
  {
  }

  /** One round of the loop. */
  method ReplaceLast(pRename: RenameCtx, zSql: string, zNew: string, bQuote: bool, zOut: array<char>, nOut: nat,
                     ghost tokens: set<RenameToken>, ghost c: nat)
      returns (nOut': nat, ghost c': nat)
    requires Placed(zSql, tokens) && pRename.pList != []
    requires nOut < zOut.Length && zOut[nOut] == NUL && nOut + Room(|pRename.pList|, |Quoted(zNew)|) < zOut.Length
    requires Edited(zSql, tokens, zNew, bQuote, pRename.pList, zOut[..nOut], c)
    modifies pRename`pList, zOut
    ensures |pRename.pList| < |old(pRename.pList)|
    ensures nOut' < zOut.Length && zOut[nOut'] == NUL && nOut' + Room(|pRename.pList|, |Quoted(zNew)|) < zOut.Length
    ensures Edited(zSql, tokens, zNew, bQuote, pRename.pList, zOut[..nOut'], c')
  {
    hide *;
    ghost var left, text := pRename.pList, zOut[..nOut];
    RoomForOneLess(|left|, |Quoted(zNew)|);
    var best := pRename.RenameColumnTokenNext();
    ghost var k :| 0 <= k < |left| && left[k] == best && pRename.pList == Without(left, k);
    EditStep(zSql, tokens, zNew, bQuote, left, text, c, k);
    var zReplace := if IsIdChar(zSql[best.z]) && !bQuote then zNew else Quoted(zNew);
    IsReplacement(zSql, best.z, zNew, bQuote);
    nOut' := Splice(zOut, nOut, best.z, best.n, zReplace);
    c' := best.z;
  }
}
