/**
 Hub URLs: the parsers of the OpenCSG and Hugging Face backends against the
 printers that build the URL of one file. A URL is the text after the scheme,
 made of characters the URL library leaves as they are.
 */
module HubUrls {
  import opened Wrappers

  datatype Hub = OpenCsg | HuggingFace

  datatype RepositoryType = Model | Dataset | Space | Code | Mcp | Skill

  datatype Url = Url(host: Option<string>, path: string)

  datatype ParsedUrl = ParsedUrl(repositoryType: RepositoryType, repositoryId: string, filePath: Option<string>)

  datatype Outcome = Parsed(url: ParsedUrl) | InvalidUri | InvalidParameter

  function AsStr(t: RepositoryType): string {
    match t
    case Model => "models"
    case Dataset => "datasets"
    case Space => "spaces"
    case Code => "codes"
    case Mcp => "mcps"
    case Skill => "skills"
  }

  /** The type prefix a first segment stands for, if it is one. */
  function Prefix(hub: Hub, segment: string): Option<RepositoryType> {
    if segment == "datasets" then Some(Dataset)
    else if segment == "spaces" then Some(Space)
    else if segment == "models" then Some(Model)
    else if hub.HuggingFace? then None
    else if segment == "codes" then Some(Code)
    else if segment == "mcps" then Some(Mcp)
    else if segment == "skills" then Some(Skill)
    else None
  }

  // ---- strings -------------------------------------------------------------------

  predicate NoSlash(s: string) {
    forall i | 0 <= i < |s| :: s[i] != '/'
  }

  function Split(s: string): (segments: seq<string>)
    ensures |segments| >= 1
  {
    if s == "" then [""]
    else
      var rest := Split(s[1..]);
      if s[0] == '/' then [""] + rest else [[s[0]] + rest[0]] + rest[1..]
  }

  function Join(segments: seq<string>): string
    requires |segments| >= 1
  {
    if |segments| == 1 then segments[0] else segments[0] + "/" + Join(segments[1..])
  }

  function TrimEnd(s: string): string {
    if s != "" && s[|s| - 1] == '/' then TrimEnd(s[..|s| - 1]) else s
  }

  function TrimStart(s: string): string {
    if s != "" && s[0] == '/' then TrimStart(s[1..]) else s
  }

  predicate EndsClean(s: string) {
    s != "" && s[|s| - 1] != '/'
  }

  lemma {:induction false} SplitNoSlash(s: string, i: nat)
    requires i < |Split(s)|
    ensures NoSlash(Split(s)[i])
  {
    if s != "" {
      var rest := Split(s[1..]);
      if s[0] == '/' {
        if i > 0 {
          SplitNoSlash(s[1..], i - 1);
        }
      } else {
        SplitNoSlash(s[1..], i);
      }
    }
  }

  lemma JoinFirst(c: char, segments: seq<string>)
    requires |segments| >= 1
    ensures Join([[c] + segments[0]] + segments[1..]) == [c] + Join(segments)
  {
    var longer := [[c] + segments[0]] + segments[1..];
    assert longer[0] == [c] + segments[0];
    if |segments| > 1 {
      assert longer[1..] == segments[1..];
      Prepend(c, segments[0], Join(segments[1..]));
    }
  }

  lemma Prepend(c: char, a: string, b: string)
    ensures ([c] + a) + "/" + b == [c] + (a + "/" + b)
  {
  }

  lemma {:induction false} JoinSplit(s: string)
    ensures Join(Split(s)) == s
  {
    if s != "" {
      var rest := Split(s[1..]);
      JoinSplit(s[1..]);
      assert s == [s[0]] + s[1..];
      if s[0] == '/' {
        assert ([""] + rest)[1..] == rest;
        assert "" + "/" + s[1..] == s;
      } else {
        JoinFirst(s[0], rest);
      }
    }
  }

  /** Splitting off a first segment. */
  lemma {:induction false} SplitSegment(a: string, s: string)
    requires NoSlash(a)
    ensures Split(a + "/" + s) == [a] + Split(s)
  {
    var text := a + "/" + s;
    if a == "" {
      assert text[1..] == s;
    } else {
      assert text[1..] == a[1..] + "/" + s;
      SplitSegment(a[1..], s);
      var rest := [a[1..]] + Split(s);
      assert [a[0]] + rest[0] == a;
      assert rest[1..] == Split(s);
    }
  }

  lemma {:induction false} SplitWhole(a: string)
    requires NoSlash(a)
    ensures Split(a) == [a]
  {
    if a != "" {
      SplitWhole(a[1..]);
      assert [a[0]] + a[1..] == a;
    }
  }

  lemma {:induction false} TrimEndFacts(s: string)
    ensures EndsClean(s) ==> TrimEnd(s) == s
    ensures TrimEnd(s) == "" || EndsClean(TrimEnd(s))
  {
    if s != "" && s[|s| - 1] == '/' {
      TrimEndFacts(s[..|s| - 1]);
    }
  }

  lemma {:induction false} TrimStartFacts(s: string)
    ensures s == "" || s[0] != '/' ==> TrimStart(s) == s
    ensures s == "" || EndsClean(s) ==> TrimStart(s) == "" || EndsClean(TrimStart(s))
  {
    if s != "" && s[0] == '/' {
      TrimStartFacts(s[1..]);
    }
  }

  /** The last segment of a text that does not end in a slash is not empty. */
  lemma {:induction false} SplitEndsClean(s: string)
    requires EndsClean(s)
    ensures Split(s)[|Split(s)| - 1] != ""
  {
    if |s| > 1 {
      assert EndsClean(s[1..]);
      SplitEndsClean(s[1..]);
    }
  }

  lemma SplitEmpty(s: string)
    requires |Split(s)| > 1
    ensures s != ""
  {
  }

  lemma {:induction false} JoinEndsClean(segments: seq<string>)
    requires |segments| >= 1 && NoSlash(segments[|segments| - 1]) && segments[|segments| - 1] != ""
    ensures EndsClean(Join(segments))
  {
    if |segments| > 1 {
      JoinEndsClean(segments[1..]);
    }
  }

  // ---- parser and printer --------------------------------------------------------

  /** `ParsedURL::try_from`. */
  function TryFrom(hub: Hub, url: Url): Outcome {
    if url.host.None? then InvalidUri
    else
      var raw := url.host.value + TrimEnd(url.path);
      var segments := Split(TrimStart(TrimEnd(raw)));
      var prefix := Prefix(hub, segments[0]);
      var remaining := if prefix.Some? then segments[1..] else segments;
      if |remaining| < 2 then InvalidParameter
      else
        Parsed(ParsedUrl(if prefix.Some? then prefix.value else Model,
                         remaining[0] + "/" + remaining[1],
                         if |remaining| > 2 then Some(Join(remaining[2..])) else None))
  }

  function FirstSlash(s: string): (k: nat)
    ensures k <= |s| && NoSlash(s[..k]) && (k < |s| ==> s[k] == '/')
  {
    if s == "" || s[0] == '/' then 0 else 1 + FirstSlash(s[1..])
  }

  /** The authority is the text up to the first slash; an empty one is no host. */
  function ParseText(text: string): Url {
    var k := FirstSlash(text);
    Url(if k == 0 then None else Some(text[..k]), text[k..])
  }

  /** `build_opencsg_url` and `build_hf_url`. */
  function BuildUrl(hub: Hub, p: ParsedUrl, filename: string): Url {
    ParseText(if hub.HuggingFace? && p.repositoryType.Model?
              then p.repositoryId + "/" + filename
              else AsStr(p.repositoryType) + "/" + p.repositoryId + "/" + filename)
  }

  /** The owner part of a repository id. */
  function Owner(p: ParsedUrl): string {
    Split(p.repositoryId)[0]
  }

  lemma {:induction false} FirstSlashAt(a: string, s: string)
    requires NoSlash(a)
    ensures FirstSlash(a + "/" + s) == |a|
  {
    if a != "" {
      assert (a + "/" + s)[1..] == a[1..] + "/" + s;
      FirstSlashAt(a[1..], s);
    }
  }

  /** The segments of a printed text: its host, then those of the rest. */
  lemma SegmentsOf(first: string, rest: string)
    requires NoSlash(first) && first != "" && EndsClean(rest)
    ensures var url := ParseText(first + "/" + rest);
            && url.host == Some(first)
            && Split(TrimStart(TrimEnd(url.host.value + TrimEnd(url.path)))) == [first] + Split(rest)
  {
    hide Split, TrimEnd, TrimStart, FirstSlash;
    var text := first + "/" + rest;
    FirstSlashAt(first, rest);
    assert text[..|first|] == first;
    var path := text[|first|..];
    assert path == "/" + rest && EndsClean(path);
    TrimEndFacts(path);
    assert first + path == text && EndsClean(text);
    TrimEndFacts(text);
    assert text[0] == first[0] && first[0] != '/';
    TrimStartFacts(text);
    SplitSegment(first, rest);
  }

  /** What the parser returns: an id of two segments, and a file path that never ends in a slash. */
  lemma ParsedShape(hub: Hub, url: Url)
    requires TryFrom(hub, url).Parsed?
    ensures var p := TryFrom(hub, url).url;
            && |Split(p.repositoryId)| == 2
            && p.repositoryId == Split(p.repositoryId)[0] + "/" + Split(p.repositoryId)[1]
            && NoSlash(Split(p.repositoryId)[0]) && NoSlash(Split(p.repositoryId)[1])
            && (p.filePath.Some? ==> EndsClean(p.filePath.value))
            && (hub.HuggingFace? ==> p.repositoryType in {Model, Dataset, Space})
  {
    hide Split, Join, TrimEnd, TrimStart;
    var trimmed := TrimStart(TrimEnd(url.host.value + TrimEnd(url.path)));
    var segments := Split(trimmed);
    var skip := if Prefix(hub, segments[0]).Some? then 1 else 0;
    var remaining := segments[skip..];
    SplitNoSlash(trimmed, skip);
    SplitNoSlash(trimmed, skip + 1);
    SplitSegment(remaining[0], remaining[1]);
    SplitWhole(remaining[1]);
    if |remaining| > 2 {
      TrimEndFacts(url.host.value + TrimEnd(url.path));
      TrimStartFacts(TrimEnd(url.host.value + TrimEnd(url.path)));
      SplitEmpty(trimmed);
      SplitEndsClean(trimmed);
      SplitNoSlash(trimmed, |segments| - 1);
      JoinEndsClean(remaining[2..]);
    }
  }

  /** Parsing a printed text whose first segment is a host and whose rest ends in a file name. */
  lemma ParsePrinted(hub: Hub, first: string, rest: string)
    requires NoSlash(first) && first != "" && EndsClean(rest)
    ensures var segments := [first] + Split(rest);
            var prefix := Prefix(hub, first);
            var remaining := if prefix.Some? then Split(rest) else segments;
            TryFrom(hub, ParseText(first + "/" + rest))
            == if |remaining| < 2 then InvalidParameter
               else Parsed(ParsedUrl(if prefix.Some? then prefix.value else Model,
                                     remaining[0] + "/" + remaining[1],
                                     if |remaining| > 2 then Some(Join(remaining[2..])) else None))
  {
    hide Split, TrimEnd, TrimStart, FirstSlash, Join;
    SegmentsOf(first, rest);
    assert ([first] + Split(rest))[1..] == Split(rest);
  }

  /** The segments of `owner/repository/filename`. */
  lemma SplitFile(owner: string, repository: string, filename: string)
    requires NoSlash(owner) && NoSlash(repository) && EndsClean(filename)
    ensures var text := owner + "/" + repository + "/" + filename;
            && EndsClean(text) && Split(text) == [owner, repository] + Split(filename)
            && Join(Split(filename)) == filename
  {
    hide Split, Join;
    var tail := repository + "/" + filename;
    SplitSegment(owner, tail);
    SplitSegment(repository, filename);
    JoinSplit(filename);
    assert owner + "/" + repository + "/" + filename == owner + "/" + tail;
    assert [owner] + ([repository] + Split(filename)) == [owner, repository] + Split(filename);
  }

  lemma TypePrefix(hub: Hub, t: RepositoryType)
    requires hub.HuggingFace? ==> t in {Model, Dataset, Space}
    ensures Prefix(hub, AsStr(t)) == Some(t) && NoSlash(AsStr(t)) && AsStr(t) != ""
  {
  }

  /** With the type prefix in front, every repository and clean file name survives. */
  lemma PrefixedRoundTrip(hub: Hub, p: ParsedUrl, owner: string, repository: string, filename: string)
    requires NoSlash(owner) && NoSlash(repository) && p.repositoryId == owner + "/" + repository
    requires hub.HuggingFace? ==> p.repositoryType in {Model, Dataset, Space}
    requires EndsClean(filename)
    ensures TryFrom(hub, ParseText(AsStr(p.repositoryType) + "/" + p.repositoryId + "/" + filename))
            == Parsed(p.(filePath := Some(filename)))
  {
    hide Split, Join, Prefix, AsStr, TryFrom, ParseText;
    var rest := owner + "/" + repository + "/" + filename;
    SplitFile(owner, repository, filename);
    TypePrefix(hub, p.repositoryType);
    ParsePrinted(hub, AsStr(p.repositoryType), rest);
    assert AsStr(p.repositoryType) + "/" + rest == AsStr(p.repositoryType) + "/" + p.repositoryId + "/" + filename;
    assert ([owner, repository] + Split(filename))[2..] == Split(filename);
  }

  /** Without it the owner is the host: the file survives exactly when the owner is neither empty nor a prefix word. */
  lemma BareRoundTrip(p: ParsedUrl, owner: string, repository: string, filename: string)
    requires NoSlash(owner) && NoSlash(repository) && p.repositoryId == owner + "/" + repository
    requires EndsClean(filename) && p.repositoryType.Model?
    ensures TryFrom(HuggingFace, ParseText(p.repositoryId + "/" + filename)) == Parsed(p.(filePath := Some(filename)))
            <==> owner != "" && Prefix(HuggingFace, owner).None?
  {
    hide Split, Join, Prefix, ParseText, TryFrom;
    var rest := repository + "/" + filename;
    var text := p.repositoryId + "/" + filename;
    assert text == owner + "/" + rest;
    if owner == "" {
      NoHost(text);
    } else {
      SplitSegment(repository, filename);
      JoinSplit(filename);
      ParsePrinted(HuggingFace, owner, rest);
      if Prefix(HuggingFace, owner).None? {
        assert ([owner] + ([repository] + Split(filename)))[2..] == Split(filename);
      } else {
        ShorterFile(repository, filename);
      }
    }
  }

  lemma NoHost(text: string)
    requires text != "" && text[0] == '/'
    ensures TryFrom(HuggingFace, ParseText(text)) == InvalidUri
  {
  }

  /** A file path that lost its first segment is not the file name. */
  lemma ShorterFile(repository: string, filename: string)
    ensures var remaining := [repository] + Split(filename);
            |remaining| > 2 ==> Join(remaining[2..]) != filename
  {
    var remaining, segments := [repository] + Split(filename), Split(filename);
    if |remaining| > 2 {
      JoinSplit(filename);
      assert remaining[2..] == segments[1..];
      assert |Join(segments)| > |Join(segments[1..])|;
    }
  }

  /**
   For every URL the parser accepts and every file name: printing the file's URL
   and parsing it returns the same repository and that file, exactly when the
   name is not empty and does not end in a slash and, for a Hugging Face model,
   the owner is neither empty nor one of the prefix words.
   */
  lemma PrintThenParse(hub: Hub, url: Url, filename: string)
    requires TryFrom(hub, url).Parsed?
    ensures var p := TryFrom(hub, url).url;
            TryFrom(hub, BuildUrl(hub, p, filename)) == Parsed(p.(filePath := Some(filename)))
            <==> && EndsClean(filename)
                 && (hub.HuggingFace? && p.repositoryType.Model? ==>
                       Owner(p) != "" && Prefix(hub, Owner(p)).None?)
  {
    hide Split, TryFrom, ParseText, Prefix, AsStr;
    var p := TryFrom(hub, url).url;
    ParsedShape(hub, url);
    if TryFrom(hub, BuildUrl(hub, p, filename)) == Parsed(p.(filePath := Some(filename))) {
      ParsedShape(hub, BuildUrl(hub, p, filename));
    }
    if EndsClean(filename) {
      var owner, repository := Split(p.repositoryId)[0], Split(p.repositoryId)[1];
      if hub.HuggingFace? && p.repositoryType.Model? {
        BareRoundTrip(p, owner, repository, filename);
      } else {
        PrefixedRoundTrip(hub, p, owner, repository, filename);
      }
    }
  }

  /** Behind a type word the parser takes any owner and a repository, and nothing else. */
  lemma TypedUrl(hub: Hub, word: string, t: RepositoryType, owner: string, repository: string)
    requires NoSlash(word) && word != "" && Prefix(hub, word) == Some(t)
    requires NoSlash(owner) && NoSlash(repository) && repository != ""
    ensures TryFrom(hub, ParseText(word + "/" + owner + "/" + repository)) == Parsed(ParsedUrl(t, owner + "/" + repository, None))
  {
    hide Split, Join, ParseText, TryFrom, Prefix;
    var rest := owner + "/" + repository;
    SplitSegment(owner, repository);
    SplitWhole(repository);
    assert EndsClean(rest);
    ParsePrinted(hub, word, rest);
    assert word + "/" + rest == word + "/" + owner + "/" + repository;
  }

  /** The type each word stands for, on both hubs. */
  lemma TypeWords(hub: Hub, owner: string, repository: string)
    requires NoSlash(owner) && NoSlash(repository) && repository != ""
    ensures var tail := owner + "/" + repository;
            && TryFrom(hub, ParseText("models/" + owner + "/" + repository)) == Parsed(ParsedUrl(Model, tail, None))
            && TryFrom(hub, ParseText("datasets/" + owner + "/" + repository)) == Parsed(ParsedUrl(Dataset, tail, None))
            && TryFrom(hub, ParseText("spaces/" + owner + "/" + repository)) == Parsed(ParsedUrl(Space, tail, None))
  {
    hide Split, Join, ParseText, TryFrom;
    TypedUrl(hub, "models", Model, owner, repository);
    TypedUrl(hub, "datasets", Dataset, owner, repository);
    TypedUrl(hub, "spaces", Space, owner, repository);
    assert "models" + "/" == "models/" && "datasets" + "/" == "datasets/" && "spaces" + "/" == "spaces/";
  }

  /** Three more on OpenCSG. */
  lemma OpenCsgWords(owner: string, repository: string)
    requires NoSlash(owner) && NoSlash(repository) && repository != ""
    ensures var tail := owner + "/" + repository;
            && TryFrom(OpenCsg, ParseText("codes/" + owner + "/" + repository)) == Parsed(ParsedUrl(Code, tail, None))
            && TryFrom(OpenCsg, ParseText("mcps/" + owner + "/" + repository)) == Parsed(ParsedUrl(Mcp, tail, None))
            && TryFrom(OpenCsg, ParseText("skills/" + owner + "/" + repository)) == Parsed(ParsedUrl(Skill, tail, None))
  {
    hide Split, Join, ParseText, TryFrom;
    TypedUrl(OpenCsg, "codes", Code, owner, repository);
    TypedUrl(OpenCsg, "mcps", Mcp, owner, repository);
    TypedUrl(OpenCsg, "skills", Skill, owner, repository);
    assert "codes" + "/" == "codes/" && "mcps" + "/" == "mcps/" && "skills" + "/" == "skills/";
  }

  /** Any other first segment is the owner of a model; on Hugging Face the three words of OpenCSG are such. */
  lemma UntypedUrl(hub: Hub, owner: string, repository: string)
    requires NoSlash(owner) && NoSlash(repository) && owner != "" && repository != ""
    requires owner !in {"models", "datasets", "spaces"} && (hub.OpenCsg? ==> owner !in {"codes", "mcps", "skills"})
    ensures TryFrom(hub, ParseText(owner + "/" + repository)) == Parsed(ParsedUrl(Model, owner + "/" + repository, None))
  {
    hide Split, Join, ParseText, TryFrom;
    SplitWhole(repository);
    ParsePrinted(hub, owner, repository);
  }
}
