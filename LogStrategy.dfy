/**
 * The three log-statement strategies of services/LogStrategy.kt and the factory
 * that picks one per configured framework. Every member is a pure function of
 * its arguments: the PSI factory objects the Kotlin interface passes in are
 * never used by any strategy, so they are not parameters here.
 */
module LogStrategies {
  import opened Wrappers
  import opened Strings
  import opened Settings

  datatype LogStrategy = PrintlnStrategy | TimberStrategy | NapierStrategy

  /** A string built from five parts holds its second and its fourth part. */
  lemma ContainsSecondAndFourth(p1: string, x: string, p2: string, y: string, p3: string)
    ensures Contains(p1 + x + p2 + y + p3, x) && Contains(p1 + x + p2 + y + p3, y)
  {
    assert p1 + x + p2 + y + p3 == p1 + x + (p2 + y + p3);
    ContainsInfix(p1, x, p2 + y + p3);
    ContainsInfix(p1 + x + p2, y, p3);
  }

  /** `createKotlinLog`: the text of one Kotlin log call; it holds both the tag and the message, and more. */
  function CreateKotlinLog(s: LogStrategy, tag: string, message: string): (r: string)
    ensures Contains(r, tag) && Contains(r, message)
    ensures |r| > |tag| + |message|
  {
    match s
    case PrintlnStrategy =>
      ContainsSecondAndFourth("println(\"", tag, ": ", message, "\")");
      "println(\"" + tag + ": " + message + "\")"
    case TimberStrategy =>
      ContainsSecondAndFourth("Timber.tag(\"", tag, "\").d(\"", message, "\")");
      "Timber.tag(\"" + tag + "\").d(\"" + message + "\")"
    case NapierStrategy =>
      ContainsSecondAndFourth("Napier.d(\"", message, "\", tag = \"", tag, "\")");
      "Napier.d(\"" + message + "\", tag = \"" + tag + "\")"
  }

  /** `createJavaLog`: the text of one Java log statement; it holds both the tag and the message, and more. */
  function CreateJavaLog(s: LogStrategy, tag: string, message: string): (r: string)
    ensures Contains(r, tag) && Contains(r, message)
    ensures |r| > |tag| + |message|
  {
    match s
    case PrintlnStrategy =>
      ContainsSecondAndFourth("System.out.println(\"", tag, ": ", message, "\");");
      "System.out.println(\"" + tag + ": " + message + "\");"
    case TimberStrategy =>
      ContainsSecondAndFourth("Timber.tag(\"", tag, "\").d(\"", message, "\");");
      "Timber.tag(\"" + tag + "\").d(\"" + message + "\");"
    case NapierStrategy =>
      ContainsSecondAndFourth("Napier.d(\"", message, "\", tag = \"", tag, "\");");
      "Napier.d(\"" + message + "\", tag = \"" + tag + "\");"
  }

  /**
   * `getRemovalPatterns`: the substrings that mark a log of this strategy and tag.
   * The tag itself is always one of them and every other one contains it.
   */
  function GetRemovalPatterns(s: LogStrategy, tag: string): (r: seq<string>)
    ensures |r| > 0 && r[|r| - 1] == tag
    ensures forall q :: q in r ==> Contains(q, tag)
  {
    ContainsInfix("", tag, "");
    assert "" + tag + "" == tag;
    match s
    case PrintlnStrategy => [tag]
    case TimberStrategy =>
      ContainsInfix("Timber.tag(\"", tag, "\")");
      ["Timber.tag(\"" + tag + "\")", tag]
    case NapierStrategy =>
      ContainsInfix("tag = \"", tag, "\"");
      ["tag = \"" + tag + "\"", tag]
  }

  /** `patterns.any { text.contains(it) }`. */
  predicate MatchesAny(text: string, patterns: seq<string>) {
    exists q :: q in patterns && Contains(text, q)
  }

  /** Matching some removal pattern of a strategy is the same as containing the tag. */
  lemma MatchesPatternsIffContainsTag(s: LogStrategy, tag: string, text: string)
    ensures MatchesAny(text, GetRemovalPatterns(s, tag)) <==> Contains(text, tag)
  {
    var r := GetRemovalPatterns(s, tag);
    if MatchesAny(text, r) {
      var q :| q in r && Contains(text, q);
      ContainsTransitive(text, q, tag);
    }
    if Contains(text, tag) {
      assert r[|r| - 1] in r;
    }
  }

  /** Every log a strategy renders, in either language, is matched by its own removal patterns. */
  lemma RenderedLogMatchesOwnPatterns(s: LogStrategy, tag: string, message: string)
    ensures MatchesAny(CreateKotlinLog(s, tag, message), GetRemovalPatterns(s, tag))
    ensures MatchesAny(CreateJavaLog(s, tag, message), GetRemovalPatterns(s, tag))
  {
    MatchesPatternsIffContainsTag(s, tag, CreateKotlinLog(s, tag, message));
    MatchesPatternsIffContainsTag(s, tag, CreateJavaLog(s, tag, message));
  }

  /**
   * The Java log is the Kotlin log closed by `;`, except that println goes
   * through `System.out` in Java.
   */
  lemma JavaLogExtendsKotlinLog(s: LogStrategy, tag: string, message: string)
    ensures s.PrintlnStrategy? ==> CreateJavaLog(s, tag, message) == "System.out." + CreateKotlinLog(s, tag, message) + ";"
    ensures !s.PrintlnStrategy? ==> CreateJavaLog(s, tag, message) == CreateKotlinLog(s, tag, message) + ";"
  {
    match s
    case PrintlnStrategy => PrintlnJavaLog(tag, message);
    case TimberStrategy => TimberJavaLog(tag, message);
    case NapierStrategy => NapierJavaLog(tag, message);
  }

  lemma PrintlnJavaLog(tag: string, message: string)
    ensures CreateJavaLog(PrintlnStrategy, tag, message) == "System.out." + CreateKotlinLog(PrintlnStrategy, tag, message) + ";"
  {
    ClosedBySemicolon("System.out.println(\"", tag, ": ", message, "\")", "System.out.");
  }

  lemma TimberJavaLog(tag: string, message: string)
    ensures CreateJavaLog(TimberStrategy, tag, message) == CreateKotlinLog(TimberStrategy, tag, message) + ";"
  {
    ClosedBySemicolon("Timber.tag(\"", tag, "\").d(\"", message, "\")", "");
  }

  lemma NapierJavaLog(tag: string, message: string)
    ensures CreateJavaLog(NapierStrategy, tag, message) == CreateKotlinLog(NapierStrategy, tag, message) + ";"
  {
    ClosedBySemicolon("Napier.d(\"", message, "\", tag = \"", tag, "\")", "");
  }

  /** Regrouping a five-part string with a prefix and a trailing `;`. */
  lemma ClosedBySemicolon(p1: string, x: string, p2: string, y: string, p3: string, pre: string)
    ensures pre + p1 + x + p2 + y + p3 + ";" == pre + (p1 + x + p2 + y + p3) + ";"
  {
  }

  /** `getKotlinImport`: only the println strategy needs no import. */
  function GetKotlinImport(s: LogStrategy): (r: Option<string>)
    ensures r.None? <==> s.PrintlnStrategy?
  {
    match s
    case PrintlnStrategy => None
    case TimberStrategy => Some("timber.log.Timber")
    case NapierStrategy => Some("io.github.aakira.napier.Napier")
  }

  /** `getJavaImport`: only the Timber strategy needs an import. */
  function GetJavaImport(s: LogStrategy): (r: Option<string>)
    ensures r.Some? <==> s.TimberStrategy?
  {
    match s
    case PrintlnStrategy => None
    case TimberStrategy => Some("timber.log.Timber")
    case NapierStrategy => None
  }

  /** The import names themselves: Timber uses one name for both languages. */
  lemma ImportNames()
    ensures GetKotlinImport(TimberStrategy) == GetJavaImport(TimberStrategy) == Some("timber.log.Timber")
    ensures GetKotlinImport(NapierStrategy) == Some("io.github.aakira.napier.Napier")
  {
  }

  /**
   * `LogStrategyFactory.getStrategy`: each framework constant gets its own strategy.
   * The Napier strategy is not reachable, because the enumeration has no NAPIER constant.
   */
  function GetStrategy(framework: LoggingFramework): (r: LogStrategy)
    ensures r.PrintlnStrategy? <==> framework == PRINTLN
    ensures r.TimberStrategy? <==> framework == TIMBER
  {
    match framework
    case PRINTLN => PrintlnStrategy
    case TIMBER => TimberStrategy
  }
}
