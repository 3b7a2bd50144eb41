/** The persisted order format: one `level:identifier;` token per item, in pre-order.
    Covers the serialiser, the tokenisation done by the restorer (`Split(';')` without empty
    entries, `Split(':')`, `Int32.Parse`) and the identifier map's specification. */
module OrderCodec {
  import opened Menus

  /** The identifier stored for an item that has neither a name nor a text. */
  const SeparatorIdentifier := "_separator_"

  /** The codec's identifier: the name, else the text, else the separator sentinel. */
  function Identifier(item: MenuItem): (id: string)
    ensures id != ""
  {
    if item.name != "" then item.name
    else if item.text != "" then item.text
    else SeparatorIdentifier
  }

  /** The editor's and the visibility restorer's identifier: the name, else the text, with no
      sentinel, so it is empty for an item with neither. */
  function EditorIdentifier(item: MenuItem): (id: string)
    ensures id == item.name || id == item.text
    ensures id == "" <==> item.name == "" && item.text == ""
  {
    if item.name == "" then item.text else item.name
  }

  /** The two identifier rules agree except on items with neither name nor text. */
  lemma IdentifierRulesAgree(item: MenuItem)
    ensures EditorIdentifier(item) != "" ==> Identifier(item) == EditorIdentifier(item)
    ensures EditorIdentifier(item) == "" ==> Identifier(item) == SeparatorIdentifier
  {
  }

  // ----- decimal integers: `StringBuilder.Append(Int32)` and `Int32.Parse` -----

  predicate IsDigit(c: char)
  {
    '0' <= c <= '9'
  }

  /** Every character is a decimal digit (stated from the last character back, the order in
      which `DigitsValue` reads them). */
  predicate AllDigits(s: string)
  {
    |s| == 0 || (AllDigits(s[..|s| - 1]) && IsDigit(s[|s| - 1]))
  }

  lemma {:induction false} AllDigitsEach(s: string)
    requires AllDigits(s)
    ensures forall k | 0 <= k < |s| :: IsDigit(s[k])
  {
    if |s| > 0 {
      AllDigitsEach(s[..|s| - 1]);
      assert forall k | 0 <= k < |s| - 1 :: s[k] == s[..|s| - 1][k];
    }
  }

  /** White space `Int32.Parse` skips around the number: U+0009 to U+000D and the space. */
  predicate IsWhite(c: char)
  {
    c == ' ' || '\t' <= c <= '\r'
  }

  function DigitChar(d: nat): (c: char)
    requires d < 10
    ensures IsDigit(c) && !IsWhite(c) && c != ':' && c != ';' && c != '-' && c != '+'
  {
    ('0' as int + d) as char
  }

  /** The decimal text of a non-negative level. */
  function NatToString(n: nat): (s: string)
    ensures |s| > 0 && AllDigits(s)
  {
    if n < 10 then [DigitChar(n)] else NatToString(n / 10) + [DigitChar(n % 10)]
  }

  function DigitsValue(s: string): nat
    requires AllDigits(s)
  {
    if |s| == 0 then 0 else DigitsValue(s[..|s| - 1]) * 10 + (s[|s| - 1] as int - '0' as int)
  }

  function TrimLeadingWhite(s: string): (r: string)
    ensures |r| == 0 || !IsWhite(r[0])
  {
    if |s| > 0 && IsWhite(s[0]) then TrimLeadingWhite(s[1..]) else s
  }

  function TrimTrailingWhite(s: string): (r: string)
    ensures |r| == 0 || !IsWhite(r[|r| - 1])
  {
    if |s| > 0 && IsWhite(s[|s| - 1]) then TrimTrailingWhite(s[..|s| - 1]) else s
  }

  const Int32Min := -0x8000_0000
  const Int32Max := 0x7FFF_FFFF

  /** `Int32.Parse` with the default integer style: optional white space around an optional
      sign and at least one decimal digit; `None` where it throws (bad format or overflow). */
  function ParseInt32(s: string): (r: Option<int>)
    ensures r.Some? ==> Int32Min <= r.value <= Int32Max
  {
    var t := TrimTrailingWhite(TrimLeadingWhite(s));
    var signed := |t| > 0 && (t[0] == '-' || t[0] == '+');
    var digits := if signed then t[1..] else t;
    if |digits| == 0 || !AllDigits(digits) then None
    else
      var v: int := if signed && t[0] == '-' then -(DigitsValue(digits) as int) else DigitsValue(digits);
      if Int32Min <= v <= Int32Max then Some(v) else None
  }

  lemma {:induction false} DigitsValueOfNatToString(n: nat)
    ensures DigitsValue(NatToString(n)) == n
  {
    if n >= 10 {
      var s := NatToString(n);
      assert s[..|s| - 1] == NatToString(n / 10);
      DigitsValueOfNatToString(n / 10);
    }
  }

  /** Parsing a level the serialiser wrote gives that level back. */
  lemma ParseNatToString(n: nat)
    requires n <= Int32Max
    ensures ParseInt32(NatToString(n)) == Some(n)
  {
    var s := NatToString(n);
    AllDigitsEach(s);
    assert TrimLeadingWhite(s) == s;
    assert TrimTrailingWhite(s) == s;
    DigitsValueOfNatToString(n);
  }

  // ----- String.Split -----

  /** `s.Split(sep)`: the pieces between the separators, empty pieces included. */
  function SplitOn(s: string, sep: char): (parts: seq<string>)
    ensures |parts| >= 1
    decreases |s|
  {
    match FirstIndex(s, sep)
    case None => [s]
    case Some(k) => [s[..k]] + SplitOn(s[k + 1..], sep)
  }

  function NonEmpty(parts: seq<string>): (r: seq<string>)
    ensures forall k | 0 <= k < |r| :: r[k] != "" && r[k] in parts
  {
    if |parts| == 0 then []
    else (if parts[0] == "" then [] else [parts[0]]) + NonEmpty(parts[1..])
  }

  /** `menuOrder.Split(new[] { ';' }, StringSplitOptions.RemoveEmptyEntries)`. */
  function Fragments(s: string): (r: seq<string>)
    ensures forall k | 0 <= k < |r| :: r[k] != "" && r[k] in SplitOn(s, ';')
  {
    NonEmpty(SplitOn(s, ';'))
  }

  /** How the restorer reads one fragment. */
  datatype Entry =
    | Malformed                             // `Split(':')` does not give exactly two parts
    | BadLevel                              // two parts, but `Int32.Parse` throws on the first
    | Token(level: int, identifier: string) // a well-formed token

  function Classify(e: string): (r: Entry)
  {
    var parts := SplitOn(e, ':');
    if |parts| != 2 then Malformed
    else match ParseInt32(parts[0])
      case None => BadLevel
      case Some(l) => Token(l, parts[1])
  }

  /** Every fragment read as an entry, in order. */
  function Classified(fragments: seq<string>): (r: seq<Entry>)
    ensures |r| == |fragments|
  {
    if |fragments| == 0 then [] else [Classify(fragments[0])] + Classified(fragments[1..])
  }

  lemma {:induction false} ClassifiedAt(fragments: seq<string>, k: nat)
    requires k < |fragments|
    ensures Classified(fragments)[k] == Classify(fragments[k])
  {
    if k > 0 {
      ClassifiedAt(fragments[1..], k - 1);
    }
  }

  /** Reading fragments one by one does not depend on how they are grouped. */
  lemma {:induction false} ClassifiedAppend(xs: seq<string>, ys: seq<string>)
    ensures Classified(xs + ys) == Classified(xs) + Classified(ys)
  {
    if |xs| > 0 {
      assert (xs + ys)[1..] == xs[1..] + ys;
      ClassifiedAppend(xs[1..], ys);
    } else {
      assert xs + ys == ys;
    }
  }

  // ----- the serialiser -----

  /** The text of one token without its terminating `;`. */
  function TokenText(level: nat, identifier: string): string
  {
    NatToString(level) + ":" + identifier
  }

  /** `SerializeMenuItems`: the tokens of `kids[c][i..]` and, under each drop-down, of its
      children one level deeper. */
  function SerializeMenuItems(a: Arena, c: Id, i: nat, level: nat, free: set<Id>): (r: string)
    requires Valid(a) && c < |a.items|
    ensures |r| == 0 <==> i >= |a.kids[c]|
    decreases free, |a.kids[c]| - i
  {
    if i >= |a.kids[c]| then ""
    else
      var x := a.kids[c][i];
      TokenText(level, Identifier(a.items[x])) + ";"
      + (if Descends(a, x) && x in free then SerializeMenuItems(a, x, 0, level + 1, free - {x}) else "")
      + SerializeMenuItems(a, c, i + 1, level, free)
  }

  /** `SerializeMenuOrder`: the persisted text for the whole menu. */
  function SerializeMenuOrder(a: Arena): (r: string)
    requires Valid(a)
    ensures |r| == 0 <==> |a.kids[a.root]| == 0
    ensures |r| > 0 ==> r[|r| - 1] == ';'
  {
    SerializedEndsWithSeparator(a, a.root, 0, 0, Enterable(a));
    SerializeMenuItems(a, a.root, 0, 0, Enterable(a))
  }

  /** Every token is terminated, so a non-empty serialisation ends with `;`. */
  lemma {:induction false} SerializedEndsWithSeparator(a: Arena, c: Id, i: nat, level: nat, free: set<Id>)
    requires Valid(a) && c < |a.items|
    ensures var r := SerializeMenuItems(a, c, i, level, free); |r| > 0 ==> r[|r| - 1] == ';'
    decreases free, |a.kids[c]| - i
  {
    if i < |a.kids[c]| {
      var x := a.kids[c][i];
      if Descends(a, x) && x in free {
        SerializedEndsWithSeparator(a, x, 0, level + 1, free - {x});
      }
      SerializedEndsWithSeparator(a, c, i + 1, level, free);
    }
  }

  /** The token texts of a sequence of visits, in order. */
  function TokenTexts(a: Arena, vs: seq<Visit>): (ts: seq<string>)
    requires forall v | v in vs :: v.item < |a.items|
    ensures |ts| == |vs|
    ensures forall k | 0 <= k < |vs| :: ts[k] == TokenText(vs[k].level, Identifier(a.items[vs[k].item]))
  {
    if |vs| == 0 then [] else [TokenText(vs[0].level, Identifier(a.items[vs[0].item]))] + TokenTexts(a, vs[1..])
  }

  /** Each token text followed by `;`, concatenated. */
  function Joined(ts: seq<string>): string
  {
    if |ts| == 0 then "" else ts[0] + ";" + Joined(ts[1..])
  }

  // ----- the identifier map -----

  /** `BuildMenuItemMap` over a sequence of visits: an identifier already present keeps its item. */
  function AddFirst(a: Arena, m: map<string, Id>, vs: seq<Visit>): (r: map<string, Id>)
    requires forall v | v in vs :: v.item < |a.items|
    ensures forall k | k in m :: k in r && r[k] == m[k]
    ensures (forall k | k in m :: m[k] < |a.items|) ==> forall k | k in r :: r[k] < |a.items|
    decreases |vs|
  {
    if |vs| == 0 then m
    else
      var key := Identifier(a.items[vs[0].item]);
      AddFirst(a, if key in m then m else m[key := vs[0].item], vs[1..])
  }

  /** The map `DeserializeAndApply` builds before reconciling. */
  function MenuItemMap(a: Arena): (r: map<string, Id>)
    requires Valid(a)
    ensures forall k | k in r :: r[k] < |a.items|
    ensures forall v | v in PreOrder(a) :: Identifier(a.items[v.item]) in r
  {
    AddFirstMapsAll(a, map[], PreOrder(a));
    AddFirst(a, map[], PreOrder(a))
  }

  /** Every visited item's identifier ends up a key. */
  lemma AddFirstMapsAll(a: Arena, m: map<string, Id>, vs: seq<Visit>)
    requires forall v | v in vs :: v.item < |a.items|
    ensures forall v | v in vs :: Identifier(a.items[v.item]) in AddFirst(a, m, vs)
  {
    forall v | v in vs
      ensures Identifier(a.items[v.item]) in AddFirst(a, m, vs)
    {
      AddFirstKeys(a, m, vs, Identifier(a.items[v.item]));
    }
  }

  // ----- properties of the serialiser -----

  lemma {:induction false} TokenTextsAppend(a: Arena, xs: seq<Visit>, ys: seq<Visit>)
    requires forall v | v in xs + ys :: v.item < |a.items|
    ensures TokenTexts(a, xs + ys) == TokenTexts(a, xs) + TokenTexts(a, ys)
  {
    var whole, parts := TokenTexts(a, xs + ys), TokenTexts(a, xs) + TokenTexts(a, ys);
    forall k | 0 <= k < |whole|
      ensures whole[k] == parts[k]
    {
      if k < |xs| {
        assert (xs + ys)[k] == xs[k];
      } else {
        assert (xs + ys)[k] == ys[k - |xs|];
      }
    }
  }

  lemma {:induction false} JoinedAppend(xs: seq<string>, ys: seq<string>)
    ensures Joined(xs + ys) == Joined(xs) + Joined(ys)
  {
    if |xs| == 0 {
      assert xs + ys == ys;
    } else {
      assert (xs + ys)[1..] == xs[1..] + ys;
      JoinedAppend(xs[1..], ys);
    }
  }

  /** The serialiser writes exactly the tokens of the pre-order walk: one per visited item,
      carrying its depth and its codec identifier, each terminated by `;`. */
  lemma {:induction false} SerializeWritesWalk(a: Arena, c: Id, i: nat, level: nat, free: set<Id>)
    requires Valid(a) && c < |a.items|
    ensures SerializeMenuItems(a, c, i, level, free) == Joined(TokenTexts(a, Walk(a, c, i, level, free)))
    decreases free, |a.kids[c]| - i
  {
    if i < |a.kids[c]| {
      var x := a.kids[c][i];
      var head := [Visit(x, level, c, i)];
      var sub := if Descends(a, x) && x in free then Walk(a, x, 0, level + 1, free - {x}) else [];
      var rest := Walk(a, c, i + 1, level, free);
      if Descends(a, x) && x in free {
        SerializeWritesWalk(a, x, 0, level + 1, free - {x});
      }
      SerializeWritesWalk(a, c, i + 1, level, free);
      TokenTextsAppend(a, head + sub, rest);
      TokenTextsAppend(a, head, sub);
      JoinedAppend(TokenTexts(a, head) + TokenTexts(a, sub), TokenTexts(a, rest));
      JoinedAppend(TokenTexts(a, head), TokenTexts(a, sub));
      assert Walk(a, c, i, level, free) == head + sub + rest;
    }
  }

  lemma FirstIndexAfterPrefix(t: string, rest: string, sep: char)
    requires sep !in t
    ensures FirstIndex(t + [sep] + rest, sep) == Some(|t|)
  {
    var s := t + [sep] + rest;
    assert s[|t|] == sep;
  }

  lemma SplitOnFirstPiece(t: string, rest: string, sep: char)
    requires sep !in t
    ensures SplitOn(t + [sep] + rest, sep) == [t] + SplitOn(rest, sep)
  {
    var s := t + [sep] + rest;
    FirstIndexAfterPrefix(t, rest, sep);
    assert s[..|t|] == t;
    assert s[|t| + 1..] == rest;
  }

  lemma NonEmptyCons(p: string, rest: seq<string>)
    requires p != ""
    ensures NonEmpty([p] + rest) == [p] + NonEmpty(rest)
  {
    assert ([p] + rest)[1..] == rest;
  }

  /** Reading back a text of `;`-terminated non-empty pieces without `;` gives the pieces. */
  lemma {:induction false} FragmentsOfJoined(ts: seq<string>)
    requires forall k | 0 <= k < |ts| :: ts[k] != "" && ';' !in ts[k]
    ensures Fragments(Joined(ts)) == ts
  {
    if |ts| == 0 {
      assert SplitOn("", ';') == [""];
    } else {
      var rest := Joined(ts[1..]);
      assert Joined(ts) == ts[0] + [';'] + rest;
      SplitOnFirstPiece(ts[0], rest, ';');
      NonEmptyCons(ts[0], SplitOn(rest, ';'));
      FragmentsOfJoined(ts[1..]);
      assert ts == [ts[0]] + ts[1..];
    }
  }

  lemma SplitOnWithout(s: string, sep: char)
    requires sep !in s
    ensures SplitOn(s, sep) == [s]
  {
  }

  /** A token whose identifier has no `:` and whose level fits `Int32` reads back as itself. */
  lemma ClassifyTokenText(level: nat, identifier: string)
    requires ':' !in identifier && level <= Int32Max
    ensures Classify(TokenText(level, identifier)) == Token(level, identifier)
  {
    var digits := NatToString(level);
    AllDigitsEach(digits);
    assert ':' !in digits;
    assert TokenText(level, identifier) == digits + [':'] + identifier;
    SplitOnFirstPiece(digits, identifier, ':');
    SplitOnWithout(identifier, ':');
    ParseNatToString(level);
  }

  /** The codec identifiers of the pre-order walk contain neither delimiter. */
  predicate CleanIdentifiers(a: Arena)
    requires Valid(a)
  {
    forall v | v in PreOrder(a) :: ':' !in Identifier(a.items[v.item]) && ';' !in Identifier(a.items[v.item])
  }

  /** One token text per visit, each non-empty, free of `;`, and reading back as its visit. */
  lemma TokenTextsReadBack(a: Arena, vs: seq<Visit>)
    requires forall v | v in vs :: v.item < |a.items| && v.level <= Int32Max
    requires forall v | v in vs :: ':' !in Identifier(a.items[v.item]) && ';' !in Identifier(a.items[v.item])
    ensures forall k | 0 <= k < |vs| :: TokenTexts(a, vs)[k] != "" && ';' !in TokenTexts(a, vs)[k]
    ensures forall k | 0 <= k < |vs| :: Classify(TokenTexts(a, vs)[k]) == Token(vs[k].level, Identifier(a.items[vs[k].item]))
  {
    var ts := TokenTexts(a, vs);
    forall k | 0 <= k < |vs|
      ensures ts[k] != "" && ';' !in ts[k] && Classify(ts[k]) == Token(vs[k].level, Identifier(a.items[vs[k].item]))
    {
      assert vs[k] in vs;
      var digits := NatToString(vs[k].level);
      AllDigitsEach(digits);
      assert ts[k] == digits + ":" + Identifier(a.items[vs[k].item]);
      ClassifyTokenText(vs[k].level, Identifier(a.items[vs[k].item]));
    }
  }

  /** Decoding the persisted text of a menu whose identifiers avoid `:` and `;` gives back, for
      every item of the pre-order walk in turn, its depth and its identifier. */
  lemma DecodeSerialized(a: Arena)
    requires Valid(a) && CleanIdentifiers(a) && |a.items| <= Int32Max
    ensures var vs := PreOrder(a);
      var fs := Fragments(SerializeMenuOrder(a));
      |fs| == |vs|
      && forall k | 0 <= k < |vs| :: Classify(fs[k]) == Token(vs[k].level, Identifier(a.items[vs[k].item]))
  {
    var vs := PreOrder(a);
    SerializeWritesWalk(a, a.root, 0, 0, Enterable(a));
    WalkDepthBound(a, a.root, 0, 0, Enterable(a));
    assert |Enterable(a)| < |a.items| by {
      assert Enterable(a) < Ids(|a.items|);
      IdsSize(|a.items|);
    }
    TokenTextsReadBack(a, vs);
    FragmentsOfJoined(TokenTexts(a, vs));
  }

  // ----- properties of the identifier map -----

  /** The map's keys are the old keys and the identifier of every visit. */
  lemma {:induction false} AddFirstKeys(a: Arena, m: map<string, Id>, vs: seq<Visit>, key: string)
    requires forall v | v in vs :: v.item < |a.items|
    ensures key in AddFirst(a, m, vs) <==> key in m || exists v :: v in vs && Identifier(a.items[v.item]) == key
    decreases |vs|
  {
    if |vs| > 0 {
      var k0 := Identifier(a.items[vs[0].item]);
      var m' := if k0 in m then m else m[k0 := vs[0].item];
      AddFirstKeys(a, m', vs[1..], key);
      if exists v :: v in vs && Identifier(a.items[v.item]) == key {
        var v :| v in vs && Identifier(a.items[v.item]) == key;
        if v != vs[0] {
          assert v in vs[1..];
        }
      }
    }
  }

  /** An identifier not already mapped ends up mapped to the first visit carrying it. */
  lemma {:induction false} AddFirstKeepsFirst(a: Arena, m: map<string, Id>, vs: seq<Visit>, j: nat)
    requires forall v | v in vs :: v.item < |a.items|
    requires j < |vs| && Identifier(a.items[vs[j].item]) !in m
    requires forall i | 0 <= i < j :: Identifier(a.items[vs[i].item]) != Identifier(a.items[vs[j].item])
    ensures var key := Identifier(a.items[vs[j].item]);
      key in AddFirst(a, m, vs) && AddFirst(a, m, vs)[key] == vs[j].item
    decreases |vs|
  {
    var k0 := Identifier(a.items[vs[0].item]);
    var m' := if k0 in m then m else m[k0 := vs[0].item];
    if j > 0 {
      assert vs[1..][j - 1] == vs[j];
      AddFirstKeepsFirst(a, m', vs[1..], j - 1);
    }
  }

  /** Every identifier the serialiser writes for a menu is a key of the map built from it. */
  lemma SerializedIdentifiersAreMapped(a: Arena)
    requires Valid(a)
    ensures forall v | v in PreOrder(a) :: Identifier(a.items[v.item]) in MenuItemMap(a)
  {
    forall v | v in PreOrder(a) ensures Identifier(a.items[v.item]) in MenuItemMap(a) {
      AddFirstKeys(a, map[], PreOrder(a), Identifier(a.items[v.item]));
    }
  }
}
