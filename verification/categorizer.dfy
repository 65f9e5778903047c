/** Splitting the merged table into one table per business category. A row's category is
    read off the last word of the part of its `Expenditure Organization Name` before the
    first colon, compared case-insensitively with each category's synonyms. Every
    category filters the whole merged table on its own; nothing makes a row pick one. */
module Categorizer {
  import opened Masks
  import opened Frames
  import Strings

  /** A category key and the synonyms that select it. */
  datatype Category = Category(key: string, synonyms: seq<string>)

  /** The categories, in the order the output tables are produced. */
  const SuffixMap: seq<Category> := [
    Category("MOB", ["MOB", "MOBILITY", "Mobility"]),
    Category("PLA", ["PLA", "PLACES", "Places"]),
    Category("RES", ["RES", "RESILIENCE"]),
    Category("EF", ["EF", "Enabling Function", "ENABLING FUNCTION"]),
    Category("SSC", ["SSC", "SHARED SERVICES", "Shared Services"])
  ]

  /** The category keys, in order. */
  function Keys(): seq<string>
  {
    seq(|SuffixMap|, k requires 0 <= k < |SuffixMap| => SuffixMap[k].key)
  }

  /** The stripped text before the first colon of an organisation name. */
  function Segment(orgName: string): string
  {
    Strings.Strip(Strings.BeforeFirst(orgName, ':'))
  }

  /** `w` is the last space-free word of `seg`: a tail of `seg`, preceded by a space
      unless it is the whole of `seg`. */
  predicate IsLastWord(w: string, seg: string)
  {
    && |w| <= |seg| && w == seg[|seg| - |w|..]
    && ' ' !in w
    && (|w| < |seg| ==> seg[|seg| - |w| - 1] == ' ')
  }

  /** `rsplit(' ', 1)[-1]` of a segment is its last word. */
  lemma AfterLastIsLastWord(seg: string)
    ensures IsLastWord(Strings.AfterLast(seg, ' '), seg)
  {
    var w := Strings.AfterLast(seg, ' ');
    assert |w| <= |seg| && w == seg[|seg| - |w|..];
    assert ' ' !in w;
    assert |w| < |seg| ==> seg[|seg| - |w| - 1] == ' ';
  }

  /** `get_suffix`: the word after the last space of the segment, or the whole segment
      when it has no space. */
  function GetSuffix(orgName: string): (r: string)
    ensures IsLastWord(r, Segment(orgName))
  {
    AfterLastIsLastWord(Segment(orgName));
    Strings.AfterLast(Segment(orgName), ' ')
  }

  /** A segment without a space is its own suffix. */
  lemma GetSuffixWhole(orgName: string)
    requires ' ' !in Segment(orgName)
    ensures GetSuffix(orgName) == Segment(orgName)
  {
    var seg := Segment(orgName);
    assert forall k :: 0 <= k < |seg| ==> seg[k] != ' ';
  }

  /** `normalize_suffix`: strip, then upper-case. */
  function NormalizeSuffix(s: string): (r: string)
    ensures |r| == |Strings.Strip(s)|
    ensures ' ' in r <==> ' ' in Strings.Strip(s)
    ensures forall i :: 0 <= i < |r| ==> !('a' <= r[i] <= 'z')
  {
    var t := Strings.Strip(s);
    Strings.UpperSpaces(t);
    Strings.UpperHasNoLower(t);
    Strings.Upper(t)
  }

  /** The normalised suffix of an organisation name. */
  function NormalizedSuffix(orgName: string): string
  {
    NormalizeSuffix(GetSuffix(orgName))
  }

  /** `w` equals one of `synonyms` upper-cased. */
  predicate MatchesSynonym(w: string, synonyms: seq<string>)
  {
    exists i :: 0 <= i < |synonyms| && w == Strings.Upper(synonyms[i])
  }

  /** The organisation name selects category `c`: its normalised suffix equals one of the
      category's synonyms upper-cased. */
  predicate InCategory(orgName: string, c: Category)
  {
    MatchesSynonym(NormalizedSuffix(orgName), c.synonyms)
  }

  /** A normalised suffix never contains a space. */
  lemma NormalizedSuffixHasNoSpace(orgName: string)
    ensures ' ' !in NormalizedSuffix(orgName)
  {
    var s := GetSuffix(orgName);
    Strings.StripSubset(s);
    Strings.UpperSpaces(Strings.Strip(s));
  }

  /** A synonym that contains a space never selects its category. */
  lemma SpacedSynonymNeverMatches(orgName: string, v: string)
    requires ' ' in v
    ensures NormalizedSuffix(orgName) != Strings.Upper(v)
  {
    NormalizedSuffixHasNoSpace(orgName);
    Strings.UpperSpaces(v);
  }

  /** An upper-case ASCII word is its own upper-casing. */
  lemma UpperOfUpper(v: string)
    requires forall i :: 0 <= i < |v| ==> 'A' <= v[i] <= 'Z'
    ensures Strings.Upper(v) == v
  {
  }

  lemma MobilityWords(w: string)
    ensures MatchesSynonym(w, SuffixMap[0].synonyms) <==> w == "MOB" || w == "MOBILITY"
  {
    var syn := SuffixMap[0].synonyms;
    UpperOfUpper(syn[0]);
    UpperOfUpper(syn[1]);
    assert Strings.Upper(syn[2]) == "MOBILITY";
  }

  lemma PlacesWords(w: string)
    ensures MatchesSynonym(w, SuffixMap[1].synonyms) <==> w == "PLA" || w == "PLACES"
  {
    var syn := SuffixMap[1].synonyms;
    UpperOfUpper(syn[0]);
    UpperOfUpper(syn[1]);
    assert Strings.Upper(syn[2]) == "PLACES";
  }

  lemma ResilienceWords(w: string)
    ensures MatchesSynonym(w, SuffixMap[2].synonyms) <==> w == "RES" || w == "RESILIENCE"
  {
    var syn := SuffixMap[2].synonyms;
    UpperOfUpper(syn[0]);
    UpperOfUpper(syn[1]);
  }

  /** For a word without spaces only the first synonym of EF and of SSC can match. */
  lemma ShortFormWords(w: string)
    requires ' ' !in w
    ensures MatchesSynonym(w, SuffixMap[3].synonyms) <==> w == "EF"
    ensures MatchesSynonym(w, SuffixMap[4].synonyms) <==> w == "SSC"
  {
    var ef, ssc := SuffixMap[3].synonyms, SuffixMap[4].synonyms;
    UpperOfUpper(ef[0]);
    UpperOfUpper(ssc[0]);
    forall i | 1 <= i < 3
      ensures w != Strings.Upper(ef[i]) && w != Strings.Upper(ssc[i])
    {
      assert ' ' in ef[i] && ' ' in ssc[i] by {
        assert ef[1][8] == ' ' && ef[2][8] == ' ';
        assert ssc[1][6] == ' ' && ssc[2][6] == ' ';
      }
      Strings.UpperSpaces(ef[i]);
      Strings.UpperSpaces(ssc[i]);
    }
  }

  /** Which normalised suffixes select each category. With this map "Enabling Function"
      and "SHARED SERVICES" are dead synonyms: EF is selected exactly by the suffix "EF",
      and SSC exactly by "SSC". */
  lemma CategoryWords(orgName: string)
    ensures var w := NormalizedSuffix(orgName);
            && (InCategory(orgName, SuffixMap[0]) <==> w == "MOB" || w == "MOBILITY")
            && (InCategory(orgName, SuffixMap[1]) <==> w == "PLA" || w == "PLACES")
            && (InCategory(orgName, SuffixMap[2]) <==> w == "RES" || w == "RESILIENCE")
            && (InCategory(orgName, SuffixMap[3]) <==> w == "EF")
            && (InCategory(orgName, SuffixMap[4]) <==> w == "SSC")
  {
    var w := NormalizedSuffix(orgName);
    NormalizedSuffixHasNoSpace(orgName);
    MobilityWords(w);
    PlacesWords(w);
    ResilienceWords(w);
    ShortFormWords(w);
  }

  /** The words selecting different categories start with different letters: M, P, R,
      E and S. */
  lemma LeadingLetter(w: string, j: int)
    requires ' ' !in w
    requires 0 <= j < |SuffixMap| && MatchesSynonym(w, SuffixMap[j].synonyms)
    ensures |w| > 0 && w[0] == "MPRES"[j]
  {
    if j == 0 {
      MobilityWords(w);
    } else if j == 1 {
      PlacesWords(w);
    } else if j == 2 {
      ResilienceWords(w);
    } else {
      ShortFormWords(w);
    }
  }

  /** No word without spaces selects two categories of this map. */
  lemma WordsDisjoint(w: string, k: int, l: int)
    requires ' ' !in w
    requires 0 <= k < l < |SuffixMap|
    ensures !(MatchesSynonym(w, SuffixMap[k].synonyms) && MatchesSynonym(w, SuffixMap[l].synonyms))
  {
    if MatchesSynonym(w, SuffixMap[k].synonyms) && MatchesSynonym(w, SuffixMap[l].synonyms) {
      LeadingLetter(w, k);
      LeadingLetter(w, l);
    }
  }

  /** No organisation name selects two categories of this map. */
  lemma CategoriesDisjoint(orgName: string, k: int, l: int)
    requires 0 <= k < l < |SuffixMap|
    ensures !(InCategory(orgName, SuffixMap[k]) && InCategory(orgName, SuffixMap[l]))
  {
    NormalizedSuffixHasNoSpace(orgName);
    WordsDisjoint(NormalizedSuffix(orgName), k, l);
  }

  /** The keys of the map, in order. */
  lemma KeysInOrder()
    ensures Keys() == ["MOB", "PLA", "RES", "EF", "SSC"]
  {
  }

  /** The segment of a name whose first colon is at `colon` and whose text before it is
      already stripped. */
  lemma SegmentAt(orgName: string, colon: int)
    requires 0 <= colon <= |orgName|
    requires ':' !in orgName[..colon] && (colon < |orgName| ==> orgName[colon] == ':')
    requires colon > 0 ==> !Strings.IsSpace(orgName[0]) && !Strings.IsSpace(orgName[colon - 1])
    ensures Segment(orgName) == orgName[..colon]
  {
    Strings.BeforeFirstAt(orgName, ':', colon);
    Strings.StripUnchanged(orgName[..colon]);
  }

  /** Normalising a word that is already stripped only upper-cases it. */
  lemma NormalizeStripped(word: string)
    requires |word| > 0 ==> !Strings.IsSpace(word[0]) && !Strings.IsSpace(word[|word| - 1])
    ensures NormalizeSuffix(word) == Strings.Upper(word)
  {
    Strings.StripUnchanged(word);
  }

  /** The normalised suffix located by position: the first colon is at `colon` (or there
      is none), the segment before it is already stripped, and its last space is just
      before `space`. */
  lemma NormalizedSuffixAt(orgName: string, colon: int, space: int)
    requires 0 <= space <= colon <= |orgName|
    requires ':' !in orgName[..colon] && (colon < |orgName| ==> orgName[colon] == ':')
    requires colon > 0 ==> !Strings.IsSpace(orgName[0]) && !Strings.IsSpace(orgName[colon - 1])
    requires ' ' !in orgName[space..colon] && (space > 0 ==> orgName[space - 1] == ' ')
    requires space < colon ==> !Strings.IsSpace(orgName[space])
    ensures NormalizedSuffix(orgName) == Strings.Upper(orgName[space..colon])
  {
    var seg := orgName[..colon];
    var word := orgName[space..colon];
    SegmentAt(orgName, colon);
    assert seg[space..] == word;
    Strings.AfterLastAt(seg, ' ', space);
    assert GetSuffix(orgName) == word;
    assert |word| > 0 ==> word[|word| - 1] == orgName[colon - 1];
    NormalizeStripped(word);
  }

  /** The word "Division" of "Some Division: North Mobility" upper-cased. */
  lemma DivisionWord()
    ensures Strings.Upper("Some Division: North Mobility"[5..13]) == "DIVISION"
  {
    var name := "Some Division: North Mobility";
    assert name == "Some " + "Division" + ": North Mobility";
    assert Strings.Upper("Division") == "DIVISION";
  }

  /** The word "Mobility" of "North Mobility: Some Division" upper-cased. */
  lemma MobilityWord()
    ensures Strings.Upper("North Mobility: Some Division"[6..14]) == "MOBILITY"
  {
    var name := "North Mobility: Some Division";
    assert name == "North " + "Mobility" + ": Some Division";
    assert Strings.Upper("Mobility") == "MOBILITY";
  }

  /** The suffix is read before the colon: "Some Division: North Mobility" has the
      normalised suffix "DIVISION" and selects no category. */
  lemma ColonSegmentDecides()
    ensures NormalizedSuffix("Some Division: North Mobility") == "DIVISION"
    ensures forall k :: 0 <= k < |SuffixMap| ==> !InCategory("Some Division: North Mobility", SuffixMap[k])
  {
    NormalizedSuffixAt("Some Division: North Mobility", 13, 5);
    DivisionWord();
    DivisionInNoCategory();
  }

  /** A word starting with none of M, P, R, E, S selects no category of this map. */
  lemma NoCategoryForLetter(w: string, k: int)
    requires ' ' !in w && |w| > 0 && w[0] !in "MPRES"
    requires 0 <= k < |SuffixMap|
    ensures !MatchesSynonym(w, SuffixMap[k].synonyms)
  {
    if MatchesSynonym(w, SuffixMap[k].synonyms) {
      LeadingLetter(w, k);
    }
  }

  /** A word starting with none of M, P, R, E, S selects no category of this map. */
  lemma WordInNoCategory(w: string)
    requires ' ' !in w && |w| > 0 && w[0] !in "MPRES"
    ensures forall k :: 0 <= k < |SuffixMap| ==> !MatchesSynonym(w, SuffixMap[k].synonyms)
  {
    forall k | 0 <= k < |SuffixMap|
      ensures !MatchesSynonym(w, SuffixMap[k].synonyms)
    {
      NoCategoryForLetter(w, k);
    }
  }

  lemma DivisionInNoCategory()
    ensures forall k :: 0 <= k < |SuffixMap| ==> !MatchesSynonym("DIVISION", SuffixMap[k].synonyms)
  {
    WordInNoCategory("DIVISION");
  }

  lemma FinanceWordInNoCategory()
    ensures forall k :: 0 <= k < |SuffixMap| ==> !MatchesSynonym("FINANCE", SuffixMap[k].synonyms)
  {
    WordInNoCategory("FINANCE");
  }

  /** The word "Finance" of "Finance: Treasury" upper-cased. */
  lemma FinanceWord()
    ensures Strings.Upper("Finance: Treasury"[0..7]) == "FINANCE"
  {
    var name := "Finance: Treasury";
    assert name == "Finance" + ": Treasury";
    assert Strings.Upper("Finance") == "FINANCE";
  }

  /** "Finance: Treasury" selects no category; its normalised suffix is "FINANCE", the
      word before the colon. */
  lemma FinanceInNoCategory()
    ensures NormalizedSuffix("Finance: Treasury") == "FINANCE"
    ensures forall k :: 0 <= k < |SuffixMap| ==> !InCategory("Finance: Treasury", SuffixMap[k])
  {
    NormalizedSuffixAt("Finance: Treasury", 7, 0);
    FinanceWord();
    FinanceWordInNoCategory();
  }

  /** "MOBILITY" selects MOB and no other category. */
  lemma MobilityOnlyInMob()
    ensures MatchesSynonym("MOBILITY", SuffixMap[0].synonyms)
    ensures forall k :: 1 <= k < |SuffixMap| ==> !MatchesSynonym("MOBILITY", SuffixMap[k].synonyms)
  {
    MobilityWords("MOBILITY");
    forall k | 1 <= k < |SuffixMap|
      ensures !MatchesSynonym("MOBILITY", SuffixMap[k].synonyms)
    {
      WordsDisjoint("MOBILITY", 0, k);
    }
  }

  /** With the words the other way round the row lands in MOB and nowhere else. */
  lemma MobilitySuffixSelectsMob()
    ensures NormalizedSuffix("North Mobility: Some Division") == "MOBILITY"
    ensures InCategory("North Mobility: Some Division", SuffixMap[0])
    ensures forall k :: 1 <= k < |SuffixMap| ==> !InCategory("North Mobility: Some Division", SuffixMap[k])
  {
    NormalizedSuffixAt("North Mobility: Some Division", 14, 6);
    MobilityWord();
    MobilityOnlyInMob();
  }

  /** The mask of rows whose organisation name selects `c`. */
  function CategoryMask(t: Table, c: Category): (m: seq<bool>)
    ensures |m| == |t.rows|
  {
    seq(|t.rows|, i requires 0 <= i < |t.rows| => InCategory(Render(Get(t.rows[i], OrgName)), c))
  }

  /** Row `i`'s flag in each category's mask, in terms of the row's normalised suffix. */
  lemma CategoryMaskWords(t: Table, i: int)
    requires 0 <= i < |t.rows|
    ensures var w := NormalizedSuffix(Render(Get(t.rows[i], OrgName)));
            && (CategoryMask(t, SuffixMap[0])[i] <==> w == "MOB" || w == "MOBILITY")
            && (CategoryMask(t, SuffixMap[1])[i] <==> w == "PLA" || w == "PLACES")
            && (CategoryMask(t, SuffixMap[2])[i] <==> w == "RES" || w == "RESILIENCE")
            && (CategoryMask(t, SuffixMap[3])[i] <==> w == "EF")
            && (CategoryMask(t, SuffixMap[4])[i] <==> w == "SSC")
  {
    CategoryWords(Render(Get(t.rows[i], OrgName)));
  }

  /** Every row names an organisation (a missing one would make the mask shorter than
      the table, which pandas rejects). */
  ghost predicate OrgNamesPresent(t: Table)
  {
    && WellFormed(t)
    && OrgName in t.columns
    && forall i :: 0 <= i < |t.rows| ==> t.rows[i][OrgName] != Null
  }

  /** `merged_df[mask]` for one category. */
  function Partition(t: Table, c: Category): (r: Table)
    requires OrgNamesPresent(t)
    ensures r.columns == t.columns
    ensures WellFormed(r)
  {
    SelectRows(t, CategoryMask(t, c))
  }

  /** One output table with its category key. */
  datatype Part = Part(key: string, table: Table)

  /** `filtered_dfs`: one table per category, in the order of the map. */
  function Categorize(t: Table): (r: seq<Part>)
    requires OrgNamesPresent(t)
    ensures |r| == |SuffixMap|
    ensures forall k :: 0 <= k < |r| ==> r[k].key == SuffixMap[k].key
    ensures forall k :: 0 <= k < |r| ==> r[k].table.columns == t.columns && WellFormed(r[k].table)
  {
    seq(|SuffixMap|, k requires 0 <= k < |SuffixMap| => Part(SuffixMap[k].key, Partition(t, SuffixMap[k])))
  }

  /** The output tables are keyed MOB, PLA, RES, EF, SSC, in that order. */
  lemma CategorizeKeys(t: Table)
    requires OrgNamesPresent(t)
    ensures |Categorize(t)| == |Keys()| == 5
    ensures forall k :: 0 <= k < |Keys()| ==>
              Categorize(t)[k].key == Keys()[k] == ["MOB", "PLA", "RES", "EF", "SSC"][k]
  {
    KeysInOrder();
  }

  /** Each partition is the order-preserving selection of exactly the rows whose
      organisation name selects the category. */
  lemma PartitionSelects(t: Table, c: Category)
    requires OrgNamesPresent(t)
    ensures IsSelection(Partition(t, c).rows, t.rows, CategoryMask(t, c))
    ensures forall i :: 0 <= i < |t.rows| ==>
              (CategoryMask(t, c)[i] <==> InCategory(Render(t.rows[i][OrgName]), c))
  {
    MaskSelects(t.rows, CategoryMask(t, c));
  }

  /** Every row of the table of category `c` is an input row whose organisation name
      selects `c`. */
  lemma PartitionRowsSelect(t: Table, c: Category)
    requires OrgNamesPresent(t)
    ensures forall row :: row in Partition(t, c).rows ==>
              row in t.rows && InCategory(Render(Get(row, OrgName)), c)
  {
    var m := CategoryMask(t, c);
    MaskSelects(t.rows, m);
    SelectionFrom(Partition(t, c).rows, t.rows, m);
  }

  /** Every input row whose organisation name selects `c` is in the table of `c`. */
  lemma PartitionKeepsSelected(t: Table, c: Category)
    requires OrgNamesPresent(t)
    ensures forall i :: 0 <= i < |t.rows| && InCategory(Render(Get(t.rows[i], OrgName)), c) ==>
              t.rows[i] in Partition(t, c).rows
  {
    var m := CategoryMask(t, c);
    MaskSelects(t.rows, m);
    SelectionKeeps(Partition(t, c).rows, t.rows, m);
  }

  /** The category masks of two different keys never both hold on a row, so no input row
      lands in two output tables. */
  lemma PartitionsDisjoint(t: Table, k: int, l: int)
    requires OrgNamesPresent(t)
    requires 0 <= k < l < |SuffixMap|
    ensures forall i :: 0 <= i < |t.rows| ==>
              !(CategoryMask(t, SuffixMap[k])[i] && CategoryMask(t, SuffixMap[l])[i])
  {
    forall i | 0 <= i < |t.rows|
      ensures !(CategoryMask(t, SuffixMap[k])[i] && CategoryMask(t, SuffixMap[l])[i])
    {
      CategoriesDisjoint(Render(Get(t.rows[i], OrgName)), k, l);
    }
  }
}
