/**
 * Loading a README into the editor: each text box receives its section of
 * the file, and the contributors box receives the records read from the
 * HTML table held in the `table-contributors` section.
 */
module Editor {
  import opened Wrappers
  import opened Sections
  import opened Contributors
  import opened ContributorFacts

  /** The names of the sections the editor fills, as the template spells them. */
  const Description: string := "description"
  const Prerequisites: string := "prerequisites"
  const Installing: string := "installing"
  const Using: string := "using"
  const Contributing: string := "contributing"
  const ContributorsIntro: string := "contributors"
  const ContributorsTable: string := "table-contributors"

  /** The contents of the six text boxes of the editor. */
  datatype TextBoxes = TextBoxes(
    description: string,
    prerequisites: string,
    installing: string,
    usage: string,
    contributing: string,
    contributorsIntro: string)

  /** The editor window: its text boxes and its contributors box. */
  class ReadmeForm {
    var text: TextBoxes
    var contributors: seq<Contributor>

    constructor ()
      ensures text == TextBoxes("", "", "", "", "", "") && contributors == []
    {
      text, contributors := TextBoxes("", "", "", "", "", ""), [];
    }

    /**
     * Fill the boxes from `file`. `parseHtml` stands for the HTML parser
     * applied to the text of the `table-contributors` section. The
     * contributors box changes only when a contributors table is read to
     * the end; `raised` is the fault when reading it raised, after the text
     * boxes were already filled.
     */
    method ReadFile(file: Option<seq<string>>, parseHtml: string -> seq<Table>) returns (raised: Option<Fault>)
      modifies this
      ensures text.description == Extract(file, Description)
      ensures text.prerequisites == Extract(file, Prerequisites)
      ensures text.installing == Extract(file, Installing)
      ensures text.usage == Extract(file, Using)
      ensures text.contributing == Extract(file, Contributing)
      ensures text.contributorsIntro == Extract(file, ContributorsIntro)
      ensures var outcome := ParseContributors(parseHtml(Extract(file, ContributorsTable)));
        (outcome.Parsed? ==> Valid(outcome.roster) && contributors == Values(outcome.roster)) &&
        (!outcome.Parsed? ==> contributors == old(contributors)) &&
        raised == (if outcome.Crash? then Some(outcome.fault) else None)
    {
      var d := ReadSection(Description, file);
      var p := ReadSection(Prerequisites, file);
      var i := ReadSection(Installing, file);
      var u := ReadSection(Using, file);
      var c := ReadSection(Contributing, file);
      var ci := ReadSection(ContributorsIntro, file);
      var html := ReadSection(ContributorsTable, file);
      text := TextBoxes(d, p, i, u, c, ci);
      var tables := parseHtml(html);
      var outcome := ReadContributors(tables);
      raised := None;
      match outcome
      case Crash(f) =>
        raised := Some(f);
      case NoTable =>
      case Parsed(r) =>
        ParsedRosterIsValid(tables);
        contributors := Values(r);
    }
  }
}
