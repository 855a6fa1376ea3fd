/** The pure part of the exception-handling middleware: which response an
    exception turns into, how an exception class name becomes a readable
    title, and which headers accompany the response. */
module ExceptionHandling {
  import opened Wrappers
  import Strings

  /** The exception classes the middleware's switch checks for, in arm order. */
  datatype ExceptionClass = ValidationClass | JwtGenerationClass | JwtFetchKeySecretClass | AppClass

  /** The members of `AppException` the middleware reads. */
  datatype AppDetails = AppDetails(
    statusCode: int,
    publicMessage: string,
    innerMessage: Option<string>,
    errorCode: int)

  /** A thrown exception: its runtime class name, its message, every switch-arm
      class its runtime class is or derives from, its error list and, when it
      is an `AppException`, that class's members. */
  datatype Thrown = Thrown(
    typeName: string,
    message: string,
    instanceOf: set<ExceptionClass>,
    errors: seq<string>,
    app: AppDetails)

  /** `ExceptionDetail`, the JSON body (the status code is not serialized). */
  datatype ExceptionDetail = ExceptionDetail(
    statusCode: int,
    title: string,
    message: string,
    errors: Option<seq<string>>,
    extendedMessage: Option<string>,
    errorCode: Option<int>)

  const BadRequest: int := 400
  const InternalServerError: int := 500

  // ---------------------------------------------------------------------------
  // Readable titles

  predicate IsAsciiUpper(c: char) {
    'A' <= c <= 'Z'
  }

  /** A regular-expression word character, restricted to ASCII. */
  predicate IsWordChar(c: char) {
    'a' <= c <= 'z' || 'A' <= c <= 'Z' || '0' <= c <= '9' || c == '_'
  }

  /** Text made only of ASCII word characters, as the name of a non-generic
      class written in ASCII is (a generic class's runtime name also
      carries a backtick and its arity, as in "ApiException`1"). */
  predicate IsIdentifier(s: string) {
    forall i :: 0 <= i < |s| ==> IsWordChar(s[i])
  }

  /** The pattern `(\B[A-Z])` matches a capital whose left neighbour, the
      character `previous` (none at the start), is a word character. */
  predicate MatchesAt(previous: Option<char>, c: char) {
    IsAsciiUpper(c) && previous.Some? && IsWordChar(previous.value)
  }

  /** Replacing `(\B[A-Z])` with `" $1"` in the text `s` that follows
      `previous`: a space goes in front of every match. */
  function InsertSpacesAfter(previous: Option<char>, s: string): string
    decreases |s|
  {
    if |s| == 0 then [] else Spaced(previous, s[0]) + InsertSpacesAfter(Some(s[0]), s[1..])
  }

  /** One character of the output, preceded by a space when it is a match. */
  function Spaced(previous: Option<char>, c: char): string {
    if MatchesAt(previous, c) then [' ', c] else [c]
  }

  /** The step inserts spaces and nothing else: deleting all spaces from
      input and output gives the same text. */
  lemma {:induction false} InsertSpacesOnlyAddsSpaces(previous: Option<char>, s: string)
    ensures DropSpaces(InsertSpacesAfter(previous, s)) == DropSpaces(s)
    decreases |s|
  {
    if |s| > 0 {
      var head := Spaced(previous, s[0]);
      var rest := InsertSpacesAfter(Some(s[0]), s[1..]);
      InsertSpacesOnlyAddsSpaces(Some(s[0]), s[1..]);
      DropSpacesAppend(head, rest);
      DropSpacesAppend([s[0]], s[1..]);
      assert s == [s[0]] + s[1..];
      DropSpacesSpaced(previous, s[0]);
    }
  }

  /** The regular-expression step applied to a whole class name. */
  function InsertSpaces(s: string): string {
    InsertSpacesAfter(None, s)
  }

  /** The text with its spaces deleted. */
  function DropSpaces(s: string): string {
    if |s| == 0 then [] else (if s[0] == ' ' then [] else [s[0]]) + DropSpaces(s[1..])
  }

  lemma {:induction false} DropSpacesAppend(a: string, b: string)
    ensures DropSpaces(a + b) == DropSpaces(a) + DropSpaces(b)
    decreases |a|
  {
    if |a| == 0 {
      assert a + b == b;
    } else {
      assert (a + b)[1..] == a[1..] + b;
      DropSpacesAppend(a[1..], b);
    }
  }

  lemma DropSpacesSpaced(previous: Option<char>, c: char)
    ensures DropSpaces(Spaced(previous, c)) == DropSpaces([c])
  {
    if MatchesAt(previous, c) {
      assert Spaced(previous, c) == [' '] + [c];
      DropSpacesAppend([' '], [c]);
    }
  }

  /** Splitting the input splits the output: the step only ever looks one
      character back. */
  lemma {:induction false} InsertSpacesAppend(previous: Option<char>, a: string, b: string)
    requires |a| > 0
    ensures InsertSpacesAfter(previous, a + b)
         == InsertSpacesAfter(previous, a) + InsertSpacesAfter(Some(a[|a| - 1]), b)
    decreases |a|
  {
    var s := a + b;
    assert s[0] == a[0];
    assert s[1..] == a[1..] + b;
    if |a| > 1 {
      InsertSpacesAppend(Some(a[0]), a[1..], b);
      assert a[1..][|a[1..]| - 1] == a[|a| - 1];
    } else {
      assert a[1..] + b == b;
    }
  }

  /** The rule as usually stated for class names: a space before every
      capital except the first character. */
  function SpaceBeforeCapitals(s: string): string {
    if |s| == 0 then [] else [s[0]] + SpaceEachCapital(s[1..])
  }

  /** A space before every capital. */
  function SpaceEachCapital(s: string): string {
    if |s| == 0 then []
    else (if IsAsciiUpper(s[0]) then [' ', s[0]] else [s[0]]) + SpaceEachCapital(s[1..])
  }

  /** After a word character, every capital of an identifier is matched. */
  lemma {:induction false} IdentifierAfterWordChar(previous: char, s: string)
    requires IsWordChar(previous) && IsIdentifier(s)
    ensures InsertSpacesAfter(Some(previous), s) == SpaceEachCapital(s)
    decreases |s|
  {
    if |s| > 0 {
      IdentifierAfterWordChar(s[0], s[1..]);
      assert Spaced(Some(previous), s[0]) == (if IsAsciiUpper(s[0]) then [' ', s[0]] else [s[0]]);
    }
  }

  /** On text made only of ASCII word characters, such as the name of a
      non-generic class, the regular expression inserts a space exactly
      before every capital that is not the first character. */
  lemma IdentifierSpacing(s: string)
    requires IsIdentifier(s)
    ensures InsertSpaces(s) == SpaceBeforeCapitals(s)
  {
    if |s| > 0 {
      IdentifierAfterWordChar(s[0], s[1..]);
    }
  }

  const ExceptionSuffix: string := "Exception"

  /** The cached readable name followed by `TrimEnd()`: spaces before
      capitals, every "Exception" deleted, trailing white space removed. */
  function Title(typeName: string): (title: string)
    ensures |title| == 0 || !Strings.IsWhiteSpace(title[|title| - 1])
  {
    Strings.TrimEnd(Strings.RemoveAll(InsertSpaces(typeName), ExceptionSuffix))
  }

  /** The conventional "Exception" suffix of a class name does not show in
      its title. */
  lemma TitleIgnoresExceptionSuffix(name: string)
    requires |name| > 0 && IsWordChar(name[|name| - 1])
    ensures Title(name + ExceptionSuffix) == Title(name)
  {
    var spaced := InsertSpaces(name);
    var removed := Strings.RemoveAll(spaced, ExceptionSuffix);
    SpacedWithSuffix(name);
    RemoveSpacedSuffix(spaced);
    TrimEndDropsSpace(removed);
  }

  lemma SpacedWithSuffix(name: string)
    requires |name| > 0 && IsWordChar(name[|name| - 1])
    ensures InsertSpaces(name + ExceptionSuffix) == InsertSpaces(name) + [' '] + ExceptionSuffix
  {
    InsertSpacesAppend(None, name, ExceptionSuffix);
    SuffixSpacing(name[|name| - 1]);
  }

  lemma RemoveSpacedSuffix(text: string)
    ensures Strings.RemoveAll(text + [' '] + ExceptionSuffix, ExceptionSuffix)
         == Strings.RemoveAll(text, ExceptionSuffix) + [' ']
  {
    Strings.RemoveAllAroundSeparator(text, ' ', ExceptionSuffix, ExceptionSuffix);
    assert Strings.StartsWith(ExceptionSuffix, ExceptionSuffix);
    assert ExceptionSuffix[|ExceptionSuffix|..] == [];
    assert Strings.RemoveAll(ExceptionSuffix, ExceptionSuffix) == [];
  }

  lemma TrimEndDropsSpace(text: string)
    ensures Strings.TrimEnd(text + [' ']) == Strings.TrimEnd(text)
  {
    assert (text + [' '])[..|text|] == text;
  }

  /** After a word character, "Exception" gets one space in front of it. */
  lemma SuffixSpacing(c: char)
    requires IsWordChar(c)
    ensures InsertSpacesAfter(Some(c), ExceptionSuffix) == [' '] + ExceptionSuffix
  {
    assert IsCapitalisedWord(ExceptionSuffix);
    WordSpacing(Some(c), ExceptionSuffix);
  }

  /** One step of the scan. */
  lemma InsertSpacesCons(previous: Option<char>, c: char, s: string)
    ensures InsertSpacesAfter(previous, [c] + s) == Spaced(previous, c) + InsertSpacesAfter(Some(c), s)
  {
    assert ([c] + s)[0] == c;
    assert ([c] + s)[1..] == s;
  }

  /** Text without capitals passes through the step unchanged. */
  lemma {:induction false} LowercaseUnchanged(previous: Option<char>, s: string)
    requires forall i :: 0 <= i < |s| ==> !IsAsciiUpper(s[i])
    ensures InsertSpacesAfter(previous, s) == s
    decreases |s|
  {
    if |s| > 0 {
      LowercaseUnchanged(Some(s[0]), s[1..]);
      assert [s[0]] + s[1..] == s;
    }
  }

  /** A capital followed by word characters that are not capitals. */
  predicate IsCapitalisedWord(w: string) {
    && |w| > 0
    && IsAsciiUpper(w[0])
    && forall i :: 1 <= i < |w| ==> IsWordChar(w[i]) && !IsAsciiUpper(w[i])
  }

  /** Words written one after the other, as in a class name. */
  function Concat(words: seq<string>): string {
    if |words| == 0 then [] else words[0] + Concat(words[1..])
  }

  predicate AreCapitalisedWords(words: seq<string>) {
    forall i :: 0 <= i < |words| ==> IsCapitalisedWord(words[i])
  }

  /** Words that each are capitalised and free of "Exception". */
  predicate AreTitleWords(words: seq<string>) {
    forall i :: 0 <= i < |words| ==> IsCapitalisedWord(words[i]) && !Strings.Contains(words[i], ExceptionSuffix)
  }

  /** A class name made of capitalised words and the "Exception" suffix
      reads as those words separated by single spaces. */
  lemma WordsTitle(words: seq<string>)
    requires |words| > 0 && AreTitleWords(words)
    ensures Title(Concat(words) + ExceptionSuffix) == Strings.Join(words, ' ')
  {
    var name := Concat(words);
    var joined := Strings.Join(words, ' ');
    ConcatEndsInWordChar(words);
    var last := name[|name| - 1];
    assert IsWordChar(last);
    TitleIgnoresExceptionSuffix(name);
    assert AreCapitalisedWords(words);
    WordsSpacing(None, words);
    assert InsertSpaces(name) == joined;
    JoinedWordsKeepNoSuffix(words);
    JoinedWordsEndInWordChar(words);
    var final := joined[|joined| - 1];
    assert IsWordChar(final);
    WordCharIsNotWhiteSpace(final);
  }

  lemma WordCharIsNotWhiteSpace(c: char)
    requires IsWordChar(c)
    ensures !Strings.IsWhiteSpace(c)
  {
  }

  /** Every word after the first is a title word too. */
  lemma TitleWordsTail(words: seq<string>)
    requires |words| > 0 && AreTitleWords(words)
    ensures AreTitleWords(words[1..])
  {
    var rest := words[1..];
    forall i | 0 <= i < |rest|
      ensures IsCapitalisedWord(rest[i]) && !Strings.Contains(rest[i], ExceptionSuffix)
    {
      assert rest[i] == words[i + 1];
    }
  }

  /** The scan over one capitalised word: at most a space before its
      capital, nothing else. */
  lemma WordSpacing(previous: Option<char>, w: string)
    requires IsCapitalisedWord(w)
    requires previous.Some? ==> IsWordChar(previous.value)
    ensures InsertSpacesAfter(previous, w) == (if previous.Some? then [' '] else []) + w
  {
    assert w == [w[0]] + w[1..];
    InsertSpacesCons(previous, w[0], w[1..]);
    LowercaseUnchanged(Some(w[0]), w[1..]);
  }

  /** The scan over capitalised words separates them by spaces, with a
      leading space when a word character precedes them. */
  lemma {:induction false} WordsSpacing(previous: Option<char>, words: seq<string>)
    requires |words| > 0 && AreCapitalisedWords(words)
    requires previous.Some? ==> IsWordChar(previous.value)
    ensures InsertSpacesAfter(previous, Concat(words))
         == (if previous.Some? then [' '] else []) + Strings.Join(words, ' ')
    decreases |words|
  {
    var w := words[0];
    var lead: string := if previous.Some? then [' '] else [];
    WordSpacing(previous, w);
    if |words| == 1 {
      assert Concat(words) == w + [];
      assert w + [] == w;
    } else {
      var rest := words[1..];
      assert AreCapitalisedWords(rest) by {
        forall i | 0 <= i < |rest| ensures IsCapitalisedWord(rest[i]) {
          assert rest[i] == words[i + 1];
        }
      }
      InsertSpacesAppend(previous, w, Concat(rest));
      WordsSpacing(Some(w[|w| - 1]), rest);
      assert Concat(words) == w + Concat(rest);
      assert Strings.Join(words, ' ') == w + [' '] + Strings.Join(rest, ' ');
      SpaceAfterWordAssoc(lead, w, Strings.Join(rest, ' '));
    }
  }

  /** The space after a word belongs to the word, not to what follows. */
  lemma SpaceAfterWordAssoc(lead: string, w: string, tail: string)
    ensures (lead + w) + ([' '] + tail) == lead + (w + [' '] + tail)
  {
  }

  /** Joined words contain "Exception" nowhere: it cannot span a space, and
      no word contains it. */
  lemma {:induction false} JoinedWordsKeepNoSuffix(words: seq<string>)
    requires |words| > 0 && AreTitleWords(words)
    ensures Strings.RemoveAll(Strings.Join(words, ' '), ExceptionSuffix) == Strings.Join(words, ' ')
    decreases |words|
  {
    Strings.RemoveAllWithoutOccurrence(words[0], ExceptionSuffix);
    if |words| > 1 {
      var rest := words[1..];
      TitleWordsTail(words);
      JoinedWordsKeepNoSuffix(rest);
      assert ' ' !in ExceptionSuffix;
      Strings.RemoveAllAroundSeparator(words[0], ' ', Strings.Join(rest, ' '), ExceptionSuffix);
    }
  }

  lemma {:induction false} ConcatEndsInWordChar(words: seq<string>)
    requires |words| > 0 && AreTitleWords(words)
    ensures |Concat(words)| > 0
    ensures IsWordChar(Concat(words)[|Concat(words)| - 1])
    decreases |words|
  {
    if |words| > 1 {
      var rest := words[1..];
      assert IsCapitalisedWord(rest[|rest| - 1]) by {
        assert rest[|rest| - 1] == words[|words| - 1];
      }
      assert AreTitleWords(rest) by {
        forall i | 0 <= i < |rest| ensures IsCapitalisedWord(rest[i]) && !Strings.Contains(rest[i], ExceptionSuffix) {
          assert rest[i] == words[i + 1];
        }
      }
      ConcatEndsInWordChar(rest);
    } else {
      assert Concat(words) == words[0] + [];
      assert words[0] + [] == words[0];
    }
  }

  lemma {:induction false} JoinedWordsEndInWordChar(words: seq<string>)
    requires |words| > 0 && AreTitleWords(words)
    ensures |Strings.Join(words, ' ')| > 0
    ensures IsWordChar(Strings.Join(words, ' ')[|Strings.Join(words, ' ')| - 1])
    decreases |words|
  {
    if |words| > 1 {
      var rest := words[1..];
      TitleWordsTail(words);
      JoinedWordsEndInWordChar(rest);
    }
  }

  /** The class name `NotFoundException` reads "Not Found". */
  lemma NotFoundTitle()
    ensures Title("NotFoundException") == "Not Found"
  {
    var words := ["Not", "Found"];
    assert AreTitleWords(words);
    WordsTitle(words);
    assert Concat(words) + ExceptionSuffix == "NotFoundException";
    assert Strings.Join(words, ' ') == "Not Found";
  }

  // ---------------------------------------------------------------------------
  // Building the response body

  /** `PublicMessage` unless it is the empty string, then `Message`. */
  function ChooseMessage(publicMessage: string, message: string): (chosen: string)
    ensures |publicMessage| > 0 ==> chosen == publicMessage
    ensures |publicMessage| == 0 ==> chosen == message
  {
    if publicMessage == "" then message else publicMessage
  }

  /** `CreateExceptionDetail(appException)`. */
  function CreateExceptionDetail(e: Thrown): (d: ExceptionDetail)
    ensures d.statusCode == e.app.statusCode
    ensures d.title == Title(e.typeName)
    ensures d.message == ChooseMessage(e.app.publicMessage, e.message)
    ensures d.errors == Some(e.errors) && d.extendedMessage == e.app.innerMessage
    ensures d.errorCode == Some(e.app.errorCode)
  {
    ExceptionDetail(
      e.app.statusCode,
      Title(e.typeName),
      ChooseMessage(e.app.publicMessage, e.message),
      Some(e.errors),
      e.app.innerMessage,
      Some(e.app.errorCode))
  }

  function ValidationDetail(e: Thrown): ExceptionDetail {
    ExceptionDetail(BadRequest, "Validation Error", "Failed to validate properties provided",
                    Some(e.errors), None, Some(400))
  }

  function JwtGenerationDetail(e: Thrown, showExtended: bool): ExceptionDetail {
    ExceptionDetail(InternalServerError, "Access Generation Failure", "Failed to generate access tokens.",
                    None, Some(if showExtended then e.message else ""), None)
  }

  function JwtFetchKeySecretDetail(e: Thrown, showExtended: bool): ExceptionDetail {
    ExceptionDetail(InternalServerError, "Access Generation Failure", "Failed to fetch keys. " + e.message,
                    None, Some(if showExtended then e.message else ""), None)
  }

  const UnknownDetail: ExceptionDetail :=
    ExceptionDetail(InternalServerError, "Unknown Error", "An unknown error occured. Please retry again",
                    None, None, None)

  /** `BuildExceptionMessage(exception, showExtended)`: the switch's arms in
      order; the first arm whose class the exception belongs to wins, and
      null or an exception of no arm's class is an unknown error. */
  function BuildExceptionMessage(exception: Option<Thrown>, showExtended: bool): (d: ExceptionDetail)
    ensures exception.None? ==> d == UnknownDetail
    ensures exception.Some? && ValidationClass in exception.value.instanceOf ==>
              d.statusCode == 400 && d.errorCode == Some(400) && d.errors == Some(exception.value.errors)
    ensures exception.Some? && ValidationClass !in exception.value.instanceOf
            && (JwtGenerationClass in exception.value.instanceOf || JwtFetchKeySecretClass in exception.value.instanceOf) ==>
              && d.statusCode == 500 && d.title == "Access Generation Failure"
              && d.extendedMessage == Some(if showExtended then exception.value.message else "")
              && d.errorCode.None?
    ensures exception.Some? && exception.value.instanceOf == {AppClass} ==> d == CreateExceptionDetail(exception.value)
    ensures exception.Some? && exception.value.instanceOf == {} ==> d == UnknownDetail
    ensures d.statusCode == 400 || d.statusCode == 500 || AppClass in exception.value.instanceOf
  {
    match exception
    case None => UnknownDetail
    case Some(e) =>
      if ValidationClass in e.instanceOf then ValidationDetail(e)
      else if JwtGenerationClass in e.instanceOf then JwtGenerationDetail(e, showExtended)
      else if JwtFetchKeySecretClass in e.instanceOf then JwtFetchKeySecretDetail(e, showExtended)
      else if AppClass in e.instanceOf then CreateExceptionDetail(e)
      else UnknownDetail
  }

  /** The switch arms in source order. */
  const Arms: seq<ExceptionClass> := [ValidationClass, JwtGenerationClass, JwtFetchKeySecretClass, AppClass]

  /** The detail one arm builds. */
  function ArmDetail(arm: ExceptionClass, e: Thrown, showExtended: bool): ExceptionDetail {
    match arm
    case ValidationClass => ValidationDetail(e)
    case JwtGenerationClass => JwtGenerationDetail(e, showExtended)
    case JwtFetchKeySecretClass => JwtFetchKeySecretDetail(e, showExtended)
    case AppClass => CreateExceptionDetail(e)
  }

  /** The index of the first arm the exception belongs to (`|arms|` if none). */
  function FirstMatch(arms: seq<ExceptionClass>, e: Thrown): (i: nat)
    ensures i <= |arms|
    ensures i < |arms| ==> arms[i] in e.instanceOf
    ensures forall j :: 0 <= j < i ==> arms[j] !in e.instanceOf
  {
    if |arms| == 0 then 0
    else if arms[0] in e.instanceOf then 0
    else
      var i := 1 + FirstMatch(arms[1..], e);
      assert forall j :: 1 <= j < |arms| ==> arms[j] == arms[1..][j - 1];
      i
  }

  /** The switch is a first-match dispatch over its arms: the detail is the
      one built by the first arm the exception belongs to, so an exception
      caught by an earlier arm never reaches a later one. */
  lemma DispatchIsFirstMatch(e: Thrown, showExtended: bool)
    ensures var i := FirstMatch(Arms, e);
            BuildExceptionMessage(Some(e), showExtended)
              == if i < |Arms| then ArmDetail(Arms[i], e, showExtended) else UnknownDetail
  {
    var i := FirstMatch(Arms, e);
    assert Arms[0] == ValidationClass && Arms[1] == JwtGenerationClass;
    assert Arms[2] == JwtFetchKeySecretClass && Arms[3] == AppClass;
  }

  // ---------------------------------------------------------------------------
  // The response

  /** The response the middleware writes: status, content type, the two
      `SCE-*` headers and the JSON body. */
  datatype Response = Response(
    statusCode: int,
    contentType: string,
    headers: map<string, string>,
    body: ExceptionDetail)

  /** `ErrorCode.ToString()` on a nullable number: empty for null, and
      otherwise decimal text that reads back as the number. */
  function ErrorCodeText(code: Option<int>): (text: string)
    ensures code.None? <==> |text| == 0
    ensures code.Some? ==> Strings.IsNumberText(text) && Strings.StringToInt(text) == code.value
  {
    match code
    case None => ""
    case Some(n) =>
      Strings.IntToStringRoundTrip(n);
      Strings.IntToString(n)
  }

  /** The header guard `StatusCode < 500 || StatusCode >= 400` holds for
      every status code. */
  lemma HeaderGuardAlwaysHolds(statusCode: int)
    ensures statusCode < 500 || statusCode >= 400
  {
  }

  /** `HandleExceptionAsync`: the status comes from the detail, and the
      `SCE-Code` and `SCE-Message` headers are always set; the code header
      reads back as the detail's error code. */
  function HandleException(exception: Option<Thrown>, isDevelopment: bool): (resp: Response)
    ensures resp.body == BuildExceptionMessage(exception, isDevelopment)
    ensures resp.statusCode == resp.body.statusCode
    ensures resp.contentType == "application/json"
    ensures "SCE-Code" in resp.headers && "SCE-Message" in resp.headers
    ensures resp.headers["SCE-Message"] == resp.body.message
    ensures resp.body.errorCode.None? <==> resp.headers["SCE-Code"] == ""
    ensures resp.body.errorCode.Some? ==>
              && Strings.IsNumberText(resp.headers["SCE-Code"])
              && Strings.StringToInt(resp.headers["SCE-Code"]) == resp.body.errorCode.value
  {
    var detail := BuildExceptionMessage(exception, isDevelopment);
    HeaderGuardAlwaysHolds(detail.statusCode);
    var headers :=
      if detail.statusCode < 500 || detail.statusCode >= 400 then
        map["SCE-Code" := ErrorCodeText(detail.errorCode), "SCE-Message" := detail.message]
      else map[];
    Response(detail.statusCode, "application/json", headers, detail)
  }

  /** What `InvokeAsync` catches from the rest of the pipeline: an
      `AggregateException`, given by the inner exception of its flattened
      form (null when it holds none), or any other exception. */
  datatype Caught = Aggregate(flattenedInner: Option<Thrown>) | Other(exception: Thrown)

  /** `InvokeAsync`'s handlers: an aggregate is answered as its flattened
      inner exception, never as itself; an aggregate with nothing inside is an
      unknown error. */
  function Invoke(caught: Caught, isDevelopment: bool): (resp: Response)
    ensures caught.Aggregate? ==> resp == HandleException(caught.flattenedInner, isDevelopment)
    ensures caught.Other? ==> resp == HandleException(Some(caught.exception), isDevelopment)
    ensures caught == Aggregate(None) ==> resp.body == UnknownDetail && resp.statusCode == 500
  {
    match caught
    case Aggregate(inner) => HandleException(inner, isDevelopment)
    case Other(e) => HandleException(Some(e), isDevelopment)
  }
}
