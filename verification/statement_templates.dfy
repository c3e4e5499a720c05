/**
 * Statement templating of the test-case builder: every `{FORMAT}` placeholder
 * in a test's statements is replaced by the test's explicit format, or by a
 * fixed error text when the test declares no format.
 */
module StatementTemplates {
  import opened Wrappers
  import opened Strings

  /** The placeholder a statement uses for the test's format. */
  const FormatPlaceholder: string := "{FORMAT}"

  /**
   * The text substituted when no format is declared, "To use {FORMAT} in your
   * statements please set the 'format' test case element": it names the
   * placeholder itself.
   */
  const FormatReplaceError: string :=
    "To use " + FormatPlaceholder + " in your statements please set the 'format' test case element"

  /** What each placeholder becomes. */
  function Substitute(explicitFormat: Option<string>): string {
    explicitFormat.GetOr(FormatReplaceError)
  }

  /** The error text still contains the placeholder. */
  lemma ErrorTextHasPlaceholder()
    ensures Occurs(FormatPlaceholder, FormatReplaceError)
  {
    assert FormatPlaceholder <= FormatPlaceholder;
    OccursInMiddle(FormatPlaceholder, "To use ", FormatPlaceholder,
      " in your statements please set the 'format' test case element");
  }

  /**
   * One statement with its placeholders replaced (by a single, non-recursive
   * pass): the pieces between placeholders joined with the substitute.
   */
  function Instantiate(stmt: string, explicitFormat: Option<string>): (r: string)
    ensures r == Join(Split(stmt, FormatPlaceholder), Substitute(explicitFormat))
    ensures !Occurs(FormatPlaceholder, stmt) ==> r == stmt
    ensures explicitFormat.None? ==> (Occurs(FormatPlaceholder, r) <==> Occurs(FormatPlaceholder, stmt))
  {
    ReplaceIsJoinOfSplit(stmt, FormatPlaceholder, Substitute(explicitFormat));
    if !Occurs(FormatPlaceholder, stmt) then
      ReplaceAbsent(stmt, FormatPlaceholder, Substitute(explicitFormat));
      Replace(stmt, FormatPlaceholder, Substitute(explicitFormat))
    else if explicitFormat.None? then
      KeepsPlaceholder(stmt);
      Replace(stmt, FormatPlaceholder, Substitute(explicitFormat))
    else
      Replace(stmt, FormatPlaceholder, Substitute(explicitFormat))
  }

  /** `buildStatements`: the statements in order, each with its placeholders replaced. */
  method BuildStatements(statements: seq<string>, explicitFormat: Option<string>)
    returns (built: seq<string>)
    ensures |built| == |statements|
    ensures forall i :: 0 <= i < |statements| ==>
              built[i] == Join(Split(statements[i], FormatPlaceholder), Substitute(explicitFormat))
    ensures forall i :: 0 <= i < |statements| && !Occurs(FormatPlaceholder, statements[i]) ==>
              built[i] == statements[i]
    ensures explicitFormat.None? ==>
              forall i :: 0 <= i < |statements| ==>
                (Occurs(FormatPlaceholder, built[i]) <==> Occurs(FormatPlaceholder, statements[i]))
  {
    built := [];
    for i := 0 to |statements|
      invariant |built| == i
      invariant forall k :: 0 <= k < i ==> built[k] == Instantiate(statements[k], explicitFormat)
    {
      built := built + [Replace(statements[i], FormatPlaceholder, Substitute(explicitFormat))];
    }
  }

  /**
   * Without a format, a statement that had a placeholder still has one after
   * replacement, because the error text itself contains the placeholder.
   */
  lemma KeepsPlaceholder(stmt: string)
    requires Occurs(FormatPlaceholder, stmt)
    ensures Occurs(FormatPlaceholder, Replace(stmt, FormatPlaceholder, FormatReplaceError))
  {
    var parts := Split(stmt, FormatPlaceholder);
    OccursIffSplitMany(stmt, FormatPlaceholder);
    ReplaceIsJoinOfSplit(stmt, FormatPlaceholder, FormatReplaceError);
    ErrorTextHasPlaceholder();
    OccursInMiddle(FormatPlaceholder, parts[0], FormatReplaceError, Join(parts[1..], FormatReplaceError));
  }
}
