/**
 Language tags of a repository card (JS/torres-github-api.js,
 `displayRepoLanguages`, `fetchRepoLanguages`, `getLanguageIcon`,
 `getLanguageColor`): the five largest languages by bytes, each with its share
 of those five rounded to one decimal, entries that round to zero dropped.
 */
module Languages {
  import opened JsValues
  import opened Sorting

  /** One `[name, bytes]` pair of `Object.entries(languages)`, in that order. */
  datatype LangEntry = LangEntry(name: string, bytes: nat)

  /** The `languages_url` response: the language map, or any failure (status or network). */
  datatype LanguagesFetch = LanguagesOk(entries: seq<LangEntry>) | LanguagesFailed

  const MaxShown := 5

  /** `(a, b) => b[1] - a[1]`: more bytes first. */
  function ByBytesDescending(a: LangEntry, b: LangEntry): int {
    b.bytes - a.bytes
  }

  lemma ByBytesDescendingIsComparator()
    ensures IsComparator(ByBytesDescending)
  {
  }

  /**
   `sort(...).slice(0, 5)`: at most five entries, largest first, taken from the
   map, and nothing left out is larger than anything kept.
   */
  function TopLanguages(langs: seq<LangEntry>): (top: seq<LangEntry>)
    ensures |top| == Min(MaxShown, |langs|)
    ensures forall i, j :: 0 <= i < j < |top| ==> top[i].bytes >= top[j].bytes
    ensures multiset(top) <= multiset(langs)
    ensures forall e, j :: e in multiset(langs) - multiset(top) && 0 <= j < |top| ==> e.bytes <= top[j].bytes
  {
    ByBytesDescendingIsComparator();
    var sorted := Sort(langs, ByBytesDescending);
    SortedPrefix(sorted, langs, Min(MaxShown, |langs|), ByBytesDescending);
    sorted[..Min(MaxShown, |langs|)]
  }

  /**
   Entries with equal byte counts keep their `Object.entries` order: those of
   any size that are kept are the first ones of that size in the map.
   */
  lemma TopLanguagesKeepsTies(langs: seq<LangEntry>, k: LangEntry)
    ensures Equivalents(TopLanguages(langs), k, ByBytesDescending) <= Equivalents(langs, k, ByBytesDescending)
  {
    ByBytesDescendingIsComparator();
    SortStable(langs, k, ByBytesDescending);
    CutKeepsFirstTies(Sort(langs, ByBytesDescending), langs, Min(MaxShown, |langs|), k, ByBytesDescending);
  }

  function TotalBytes(s: seq<LangEntry>): nat {
    if |s| == 0 then 0 else s[0].bytes + TotalBytes(s[1..])
  }

  /** A share rounded to tenths of a percent, or `NaN` for `0 / 0`. */
  datatype Percent = Tenths(tenths: nat) | NotANumber

  /**
   `((bytes / total) * 100).toFixed(1)` as exact round-half-up tenths:
   the tenths value nearest to `1000 * bytes / total`, halves rounded up.
   */
  function PercentOf(bytes: nat, total: nat): (p: Percent)
    ensures total == 0 <==> p.NotANumber?
    ensures p.Tenths? ==> (2 * p.tenths - 1) * total <= 2000 * bytes < (2 * p.tenths + 1) * total
  {
    if total == 0 then NotANumber
    else
      var q := (2000 * bytes + total) / (2 * total);
      assert 2 * total * q <= 2000 * bytes + total < 2 * total * (q + 1);
      Tenths(q)
  }

  /** An entry survives the `parseFloat(percentage) === 0` filter exactly when its share is at least 0.05%. */
  lemma PercentZeroIff(bytes: nat, total: nat)
    ensures PercentOf(bytes, total) == Tenths(0) <==> (total > 0 && 2000 * bytes < total)
  {
    if total > 0 {
      var q := PercentOf(bytes, total).tenths;
      if q >= 1 {
        MulMonotone(1, 2 * q - 1, total);
      } else {
        assert (2 * q + 1) * total == total;
      }
    }
  }

  /** A part of the total shows a share in (0.0, 100.0] when it is not dropped. */
  lemma PercentAtMostHundred(bytes: nat, total: nat)
    requires 0 < total && bytes <= total
    ensures PercentOf(bytes, total).tenths <= 1000
  {
    var q := PercentOf(bytes, total).tenths;
    MulMonotone(2000 * bytes, 2000 * total, 1);
    if q > 1000 {
      MulMonotone(2001, 2 * q - 1, total);
    }
  }

  /** More bytes never show a smaller share. */
  lemma PercentMonotone(b1: nat, b2: nat, total: nat)
    requires 0 < total && b1 >= b2
    ensures PercentOf(b1, total).tenths >= PercentOf(b2, total).tenths
  {
    var q1 := PercentOf(b1, total).tenths;
    var q2 := PercentOf(b2, total).tenths;
    if q1 < q2 {
      MulMonotone(2 * q1 + 1, 2 * q2 - 1, total);
    }
  }

  lemma MulMonotone(a: int, b: int, t: nat)
    requires a <= b
    ensures a * t <= b * t
  {
  }

  /** `getLanguageIcon`'s table. */
  const IconTable: map<string, string> := map[
    "JavaScript" := "https://cdn.jsdelivr.net/gh/devicons/devicon@latest/icons/javascript/javascript-original.svg",
    "TypeScript" := "https://cdn.jsdelivr.net/gh/devicons/devicon@latest/icons/react/react-original.svg",
    "TSX" := "https://cdn.jsdelivr.net/gh/devicons/devicon@latest/icons/react/react-original.svg",
    "Python" := "https://cdn.jsdelivr.net/gh/devicons/devicon@latest/icons/python/python-original.svg",
    "Java" := "https://cdn.jsdelivr.net/gh/devicons/devicon@latest/icons/java/java-original.svg",
    "C#" := "https://cdn.jsdelivr.net/gh/devicons/devicon@latest/icons/csharp/csharp-original.svg",
    "VB.NET" := "https://cdn.jsdelivr.net/gh/devicons/devicon@latest/icons/dot-net/dot-net-original.svg",
    "Visual Basic .NET" := "https://cdn.jsdelivr.net/gh/devicons/devicon@latest/icons/dot-net/dot-net-original.svg",
    "HTML" := "https://cdn.jsdelivr.net/gh/devicons/devicon@latest/icons/html5/html5-original.svg",
    "CSS" := "https://cdn.jsdelivr.net/gh/devicons/devicon@latest/icons/css3/css3-original.svg",
    "React" := "https://cdn.jsdelivr.net/gh/devicons/devicon@latest/icons/react/react-original.svg",
    "SQL" := "https://cdn.jsdelivr.net/gh/devicons/devicon@latest/icons/mysql/mysql-original.svg",
    "PHP" := "https://cdn.jsdelivr.net/gh/devicons/devicon@latest/icons/php/php-original.svg",
    "Ruby" := "https://cdn.jsdelivr.net/gh/devicons/devicon@latest/icons/ruby/ruby-original.svg",
    "Go" := "https://cdn.jsdelivr.net/gh/devicons/devicon@latest/icons/go/go-original.svg",
    "Rust" := "https://cdn.jsdelivr.net/gh/devicons/devicon@latest/icons/rust/rust-original.svg",
    "C++" := "https://cdn.jsdelivr.net/gh/devicons/devicon@latest/icons/cplusplus/cplusplus-original.svg",
    "C" := "https://cdn.jsdelivr.net/gh/devicons/devicon@latest/icons/c/c-original.svg",
    "Vue" := "https://cdn.jsdelivr.net/gh/devicons/devicon@latest/icons/vuejs/vuejs-original.svg",
    "Node.js" := "https://cdn.jsdelivr.net/gh/devicons/devicon@latest/icons/nodejs/nodejs-original.svg",
    "Express" := "https://cdn.jsdelivr.net/gh/devicons/devicon@latest/icons/express/express-original.svg",
    "MongoDB" := "https://cdn.jsdelivr.net/gh/devicons/devicon@latest/icons/mongodb/mongodb-original.svg",
    "Firebase" := "https://cdn.jsdelivr.net/gh/devicons/devicon@latest/icons/firebase/firebase-plain.svg",
    "Git" := "https://cdn.jsdelivr.net/gh/devicons/devicon@latest/icons/git/git-original.svg",
    "Docker" := "https://cdn.jsdelivr.net/gh/devicons/devicon@latest/icons/docker/docker-original.svg",
    "Dockerfile" := "https://cdn.jsdelivr.net/gh/devicons/devicon@latest/icons/docker/docker-original.svg"
  ]

  /** `getLanguageColor`'s table. */
  const ColorTable: map<string, string> := map[
    "JavaScript" := "#f1e05a",
    "TypeScript" := "#3178c6",
    "Python" := "#3572A5",
    "Java" := "#b07219",
    "C#" := "#239120",
    "VB.NET" := "#945db8",
    "Visual Basic .NET" := "#945db8",
    "HTML" := "#e34c26",
    "CSS" := "#563d7c",
    "React" := "#61dafb",
    "SQL" := "#336791",
    "PHP" := "#777bb4",
    "Ruby" := "#cc342d",
    "Go" := "#00add8",
    "Rust" := "#ce422b"
  ]

  const DefaultColor := "#858585"

  /** `getLanguageIcon`: the table's URL, or `null` for a language it does not list. */
  function LanguageIcon(language: string): (icon: Option<string>)
    ensures icon.Some? <==> language in IconTable
    ensures icon.Some? ==> icon.value == IconTable[language]
  {
    if language in IconTable then Some(IconTable[language]) else None
  }

  /** `getLanguageColor`: the table's colour, or neutral grey for a language it does not list. */
  function LanguageColor(language: string): (color: string)
    ensures language in ColorTable ==> color == ColorTable[language]
    ensures language !in ColorTable ==> color == DefaultColor
  {
    if language in ColorTable then ColorTable[language] else DefaultColor
  }

  /** The TypeScript entry is shown as "TS/React"; every other name as is. */
  function DisplayName(language: string): string {
    if language == "TypeScript" then "TS/React" else language
  }

  /** How a tag is drawn: the icon image, or a coloured dot when there is no icon. */
  datatype Marker = IconImage(url: string) | ColorDot(color: string)

  function MarkerFor(language: string): (m: Marker)
    ensures m.ColorDot? <==> language !in IconTable
    ensures m.ColorDot? ==> m.color == LanguageColor(language)
    ensures m.IconImage? ==> m.url == IconTable[language]
  {
    match LanguageIcon(language)
    case Some(url) => IconImage(url)
    case None => ColorDot(LanguageColor(language))
  }

  /** A language unknown to both tables is drawn as a neutral grey dot. */
  lemma UnknownLanguageGreyDot(language: string)
    requires language !in IconTable && language !in ColorTable
    ensures MarkerFor(language) == ColorDot("#858585")
  {
  }

  /** One rendered language tag. */
  datatype Tag = Tag(language: string, caption: string, bytes: nat, percent: Percent, marker: Marker)

  /** Whether an entry's share of `total` survives the zero filter. */
  predicate Shown(e: LangEntry, total: nat) {
    total == 0 || 2000 * e.bytes >= total
  }

  /** The entries of `top` that survive the zero filter, in order. */
  function Surviving(top: seq<LangEntry>, total: nat): seq<LangEntry>
  {
    if |top| == 0 then []
    else (if Shown(top[0], total) then [top[0]] else []) + Surviving(top[1..], total)
  }

  /** The tag `displayRepoLanguages` builds for one kept entry. */
  function MakeTag(e: LangEntry, total: nat): Tag {
    Tag(e.name, DisplayName(e.name), e.bytes, PercentOf(e.bytes, total), MarkerFor(e.name))
  }

  /** The `map(...).filter(html => html !== '')` over the kept entries: a `'0.0'` share yields no tag. */
  function MakeTags(top: seq<LangEntry>, total: nat): (tags: seq<Tag>)
    ensures |tags| <= |top|
  {
    if |top| == 0 then []
    else
      var rest := MakeTags(top[1..], total);
      if PercentOf(top[0].bytes, total) == Tenths(0) then rest
      else [MakeTag(top[0], total)] + rest
  }

  /**
   The tags are those of the entries passing the zero filter, in order: each
   with its share of `total`, never `0.0`, the TS/React caption and its marker.
   */
  lemma {:induction false} MakeTagsSpec(top: seq<LangEntry>, total: nat)
    ensures var tags := MakeTags(top, total);
            && |tags| == |Surviving(top, total)|
            && forall i :: 0 <= i < |tags| ==>
                 && tags[i].language == Surviving(top, total)[i].name
                 && tags[i].bytes == Surviving(top, total)[i].bytes
                 && tags[i].percent == PercentOf(tags[i].bytes, total)
                 && tags[i].percent != Tenths(0)
                 && tags[i].caption == DisplayName(tags[i].language)
                 && tags[i].marker == MarkerFor(tags[i].language)
  {
    if |top| > 0 {
      var e := top[0];
      var rest := MakeTags(top[1..], total);
      var kept := Surviving(top[1..], total);
      MakeTagsSpec(top[1..], total);
      PercentZeroIff(e.bytes, total);
      if Shown(e, total) {
        assert MakeTags(top, total) == [MakeTag(e, total)] + rest;
        assert Surviving(top, total) == [e] + kept;
      } else {
        assert MakeTags(top, total) == rest;
        assert Surviving(top, total) == kept;
      }
    }
  }

  /** What the languages container of a card ends up showing. */
  datatype LanguagesView =
    | LoadingLanguages
    | NoLanguages
    | Tags(tags: seq<Tag>)
    | PrimaryLanguage(name: string, color: string)

  /** `displayRepoLanguages` for a fetched language map. */
  function LanguageTags(langs: seq<LangEntry>): (v: LanguagesView)
    ensures |langs| == 0 <==> v.NoLanguages?
    ensures v.Tags? ==> |v.tags| <= MaxShown
  {
    var top := TopLanguages(langs);
    if |top| == 0 then NoLanguages
    else
      Tags(MakeTags(top, TotalBytes(top)))
  }

  /**
   `fetchRepoLanguages`: a failed fetch falls back to the primary language as a
   dot with its colour (no rename, no icon); without a primary language the
   "Loading languages..." placeholder stays.
   */
  function ShowRepoLanguages(fetch: LanguagesFetch, primary: Option<string>): (v: LanguagesView)
    ensures fetch.LanguagesOk? ==> v == LanguageTags(fetch.entries)
    ensures fetch.LanguagesFailed? && Truthy(primary) ==> v == PrimaryLanguage(primary.value, LanguageColor(primary.value))
    ensures fetch.LanguagesFailed? && !Truthy(primary) ==> v == LoadingLanguages
  {
    match fetch
    case LanguagesOk(entries) => LanguageTags(entries)
    case LanguagesFailed =>
      if Truthy(primary) then PrimaryLanguage(primary.value, LanguageColor(primary.value))
      else LoadingLanguages
  }

  /** No entry is larger than the sum of all entries. */
  lemma {:induction false} EntryAtMostTotal(s: seq<LangEntry>, k: nat)
    requires k < |s|
    ensures s[k].bytes <= TotalBytes(s)
  {
    if k > 0 {
      EntryAtMostTotal(s[1..], k - 1);
    }
  }

  /** The sum of `n` entries none larger than `m` is at most `n * m`. */
  lemma {:induction false} TotalAtMost(s: seq<LangEntry>, m: nat)
    requires forall i :: 0 <= i < |s| ==> s[i].bytes <= m
    ensures TotalBytes(s) <= |s| * m
  {
    if |s| > 0 {
      TotalAtMost(s[1..], m);
    }
  }

  lemma {:induction false} SurvivingMembers(top: seq<LangEntry>, total: nat, i: nat)
    requires i < |Surviving(top, total)|
    ensures exists k :: 0 <= k < |top| && top[k] == Surviving(top, total)[i]
  {
    if |top| > 0 {
      if Shown(top[0], total) {
        if i > 0 {
          SurvivingMembers(top[1..], total, i - 1);
        }
      } else {
        SurvivingMembers(top[1..], total, i);
      }
    }
  }

  /** Against a positive total no smaller than any entry, every tag shows a share in (0.0, 100.0]. */
  lemma MakeTagsInRange(top: seq<LangEntry>, total: nat)
    requires total > 0
    requires forall k :: 0 <= k < |top| ==> top[k].bytes <= total
    ensures forall i :: 0 <= i < |MakeTags(top, total)| ==>
              MakeTags(top, total)[i].percent.Tenths? &&
              1 <= MakeTags(top, total)[i].percent.tenths <= 1000
  {
    var tags := MakeTags(top, total);
    MakeTagsSpec(top, total);
    forall i | 0 <= i < |tags|
      ensures tags[i].percent.Tenths? && 1 <= tags[i].percent.tenths <= 1000
    {
      SurvivingMembers(top, total, i);
      PercentAtMostHundred(tags[i].bytes, total);
    }
  }

  /** Over largest-first entries the shown shares never increase along the row. */
  lemma MakeTagsOrdered(top: seq<LangEntry>, total: nat)
    requires total > 0
    requires forall a, b :: 0 <= a < b < |top| ==> top[a].bytes >= top[b].bytes
    ensures forall i, j :: 0 <= i < j < |MakeTags(top, total)| ==>
              && MakeTags(top, total)[i].percent.Tenths? && MakeTags(top, total)[j].percent.Tenths?
              && MakeTags(top, total)[i].percent.tenths >= MakeTags(top, total)[j].percent.tenths
  {
    var tags := MakeTags(top, total);
    MakeTagsSpec(top, total);
    forall i, j | 0 <= i < j < |tags|
      ensures tags[i].percent.tenths >= tags[j].percent.tenths
    {
      SurvivingOrdered(top, total, i, j);
      PercentMonotone(tags[i].bytes, tags[j].bytes, total);
    }
  }

  /**
   The tags of a non-empty map: each share is taken against the sum of the five
   kept entries, lies in (0.0, 100.0] (or is `NaN` when those five sum to zero
   bytes), and the shares never increase along the row.
   */
  lemma TagsShareOfTopFive(langs: seq<LangEntry>)
    requires |langs| > 0
    ensures var total := TotalBytes(TopLanguages(langs));
            var v := LanguageTags(langs);
            && v.Tags?
            && (forall i :: 0 <= i < |v.tags| ==> v.tags[i].percent == PercentOf(v.tags[i].bytes, total))
            && (total > 0 ==> forall i :: 0 <= i < |v.tags| ==>
                  v.tags[i].percent.Tenths? && 1 <= v.tags[i].percent.tenths <= 1000)
            && (total == 0 ==> forall i :: 0 <= i < |v.tags| ==> v.tags[i].percent.NotANumber?)
            && (total > 0 ==> forall i, j :: 0 <= i < j < |v.tags| ==>
                  v.tags[i].percent.tenths >= v.tags[j].percent.tenths)
  {
    var top := TopLanguages(langs);
    var total := TotalBytes(top);
    MakeTagsSpec(top, total);
    if total > 0 {
      forall k | 0 <= k < |top| ensures top[k].bytes <= total {
        EntryAtMostTotal(top, k);
      }
      MakeTagsInRange(top, total);
      MakeTagsOrdered(top, total);
    }
  }

  /** The zero filter keeps the largest-first order of the kept entries. */
  lemma {:induction false} SurvivingOrdered(top: seq<LangEntry>, total: nat, i: nat, j: nat)
    requires forall a, b :: 0 <= a < b < |top| ==> top[a].bytes >= top[b].bytes
    requires i < j < |Surviving(top, total)|
    ensures Surviving(top, total)[i].bytes >= Surviving(top, total)[j].bytes
  {
    var rest := Surviving(top[1..], total);
    if Shown(top[0], total) {
      if i == 0 {
        SurvivingMembers(top[1..], total, j - 1);
        var k :| 0 <= k < |top[1..]| && top[1..][k] == rest[j - 1];
        assert top[k + 1] == rest[j - 1];
      } else {
        SurvivingOrdered(top[1..], total, i - 1, j - 1);
      }
    } else {
      SurvivingOrdered(top[1..], total, i, j);
    }
  }

  /**
   A map in which some language has bytes always shows at least its largest:
   that one holds at least a fifth of the kept bytes, far above the 0.05% cut.
   */
  lemma LargestLanguageShown(langs: seq<LangEntry>, k: nat)
    requires k < |langs| && langs[k].bytes > 0
    ensures LanguageTags(langs).Tags? && |LanguageTags(langs).tags| > 0
    ensures LanguageTags(langs).tags[0].language == TopLanguages(langs)[0].name
  {
    var top := TopLanguages(langs);
    var e := langs[k];
    assert e in multiset(langs);
    if e in multiset(top) {
      var j :| 0 <= j < |top| && top[j] == e;
      assert top[0].bytes >= e.bytes;
    } else {
      assert e in multiset(langs) - multiset(top);
      assert top[0].bytes >= e.bytes;
    }
    var total := TotalBytes(top);
    assert total > 0;
    TotalAtMost(top, top[0].bytes);
    MulMonotone(|top|, 5, top[0].bytes);
    assert total <= 5 * top[0].bytes;
    assert Shown(top[0], total);
    assert Surviving(top, total) == [top[0]] + Surviving(top[1..], total);
    MakeTagsSpec(top, total);
  }

  /**
   The displayed shares need not add up to 100.0: with 1999 and 1 bytes the two
   tags read 100.0% and 0.1%.
   */
  lemma SharesMayExceedHundred()
    ensures PercentOf(1999, 2000) == Tenths(1000)
    ensures PercentOf(1, 2000) == Tenths(1)
  {
  }
}
