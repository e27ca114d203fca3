/** What the modifiers of a variant mean for a label: @ ignores case, * allows any ending, and % compares the words
    that bars separate. */
module PathWords {
  import opened CString
  import opened LTree
  import opened PathQuery

  /** Without % a variant matches the labels equal to it, with * those that start with it, and with @ those that are
      so in lower case. */
  lemma VariantMeans(v: Variant, name: string)
    requires !v.sublexeme
    ensures !v.incase && !v.anyend ==> (VariantMatches(v, name) <==> name == v.name)
    ensures !v.incase && v.anyend ==> (VariantMatches(v, name) <==> v.name <= name)
    ensures v.incase && !v.anyend ==> (VariantMatches(v, name) <==> LowerAll(name) == LowerAll(v.name))
    ensures v.incase && v.anyend ==> (VariantMatches(v, name) <==> LowerAll(v.name) <= LowerAll(name))
  {
    var n := |v.name|;
    if n <= |name| {
      assert LowerAll(name[..n]) == LowerAll(name)[..n];
    }
    assert |name| == n ==> name[..n] == name;
  }

  // ----- Words -----

  predicate IsWord(w: string) {
    w != "" && forall i :: 0 <= i < |w| ==> w[i] != '_'
  }

  lemma {:induction false} WordEndIs(s: string, i: nat, e: nat)
    requires i <= e <= |s| && (forall k :: i <= k < e ==> s[k] != '_') && (e == |s| || s[e] == '_')
    ensures WordEnd(s, i) == e
    decreases e - i
  {
    if i < e {
      WordEndIs(s, i + 1, e);
    }
  }

  // One word at i, and the bar after it if the text goes on.
  lemma FirstWord(s: string, i: nat, w: string)
    requires IsWord(w) && Has(s, i, w) && (i + |w| == |s| || s[i + |w|] == '_')
    ensures Words(s, i) == [w] + Words(s, i + |w|)
  {
    forall k | i <= k < i + |w| ensures s[k] != '_' {
      HasAt(s, i, w, k - i);
    }
    WordEndIs(s, i, i + |w|);
    HasSlice(s, i, w);
  }

  lemma SkipBar(s: string, i: nat)
    requires i < |s| && s[i] == '_'
    ensures Words(s, i) == Words(s, i + 1)
  {
  }

  lemma {:induction false} WordsStanding(s: string, ptr: nat, ws: seq<string>, i: nat)
    requires i < |ws| && (forall k :: 0 <= k < |ws| ==> IsWord(ws[k])) && Standing(s, ptr, |s|, ws, "_", i)
    ensures ptr <= |s| && Words(s, ptr) == ws[i..]
    decreases |ws| - i
  {
    var e := ptr + |ws[i]|;
    if i + 1 < |ws| {
      HasAt(s, e, "_", 0);
      WordsStanding(s, e + 1, ws, i + 1);
      SkipBar(s, e);
    }
    FirstWord(s, ptr, ws[i]);
    assert ws[i..] == [ws[i]] + ws[i + 1..];
  }

  /** The words of a name are those that bars separate. */
  lemma WordsOfJoined(ws: seq<string>)
    requires ws != [] && forall k :: 0 <= k < |ws| ==> IsWord(ws[k])
    ensures Words(Join(ws, "_", 0), 0) == ws
  {
    var s := Join(ws, "_", 0);
    assert Has(s, 0, s);
    JoinStands(s, 0, |s|, ws, "_", 0);
    WordsStanding(s, 0, ws, 0);
    assert ws[0..] == ws;
  }

  /** With % a variant of words vs matches a label of words ws exactly when each of vs is one of ws, or with * the
      start of one. */
  lemma PercentMeans(vs: seq<string>, ws: seq<string>, anyend: bool)
    requires vs != [] && forall k :: 0 <= k < |vs| ==> IsWord(vs[k])
    requires ws != [] && forall k :: 0 <= k < |ws| ==> IsWord(ws[k])
    ensures VariantMatches(Variant(Join(vs, "_", 0), false, anyend, true), Join(ws, "_", 0)) <==>
            forall i :: 0 <= i < |vs| ==> exists j :: 0 <= j < |ws| && (vs[i] == ws[j] || (anyend && vs[i] <= ws[j]))
  {
    var v := Variant(Join(vs, "_", 0), false, anyend, true);
    WordsOfJoined(vs);
    WordsOfJoined(ws);
    forall i, j | 0 <= i < |vs| && 0 <= j < |ws|
      ensures NameMatches(v, vs[i], ws[j]) <==> vs[i] == ws[j] || (anyend && vs[i] <= ws[j])
    {
      assert |ws[j]| == |vs[i]| ==> ws[j][..|vs[i]|] == ws[j];
    }
    forall i | 0 <= i < |vs|
      ensures WordMatches(v, vs[i], ws) <==> exists j :: 0 <= j < |ws| && (vs[i] == ws[j] || (anyend && vs[i] <= ws[j]))
    {
    }
  }
}
