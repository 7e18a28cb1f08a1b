/** The stage registry the leader agent follows: the nine sub-agents in the
    order they must run, the working directory, inputs and outputs of each,
    and the `temp_[uuid]/` directory layout they share. All of it is constant
    data; the lemmas check that it is consistent. */
module StageRegistry {
  import opened Text

  /** The sub-agents, one per stage. */
  datatype Stage =
    | InputParser
    | PatentSearcher
    | OutlineGenerator
    | AbstractWriter
    | ClaimsWriter
    | DescriptionWriterPart1
    | DescriptionWriterPart2
    | DiagramGenerator
    | MarkdownMerger

  /** The order the stages must run in. */
  const Order: seq<Stage> := [
    InputParser, PatentSearcher, OutlineGenerator, AbstractWriter, ClaimsWriter,
    DescriptionWriterPart1, DescriptionWriterPart2, DiagramGenerator, MarkdownMerger
  ]

  /** The name the leader delegates to. */
  function AgentName(s: Stage): string {
    match s
    case InputParser => "input_parser"
    case PatentSearcher => "patent_searcher"
    case OutlineGenerator => "outline_generator"
    case AbstractWriter => "abstract_writer"
    case ClaimsWriter => "claims_writer"
    case DescriptionWriterPart1 => "description_writer_part1"
    case DescriptionWriterPart2 => "description_writer_part2"
    case DiagramGenerator => "diagram_generator"
    case MarkdownMerger => "markdown_merger"
  }

  /** A stage's place in `Order`, from 0. */
  function Position(s: Stage): (i: nat)
    ensures i < |Order| && Order[i] == s
  {
    match s
    case InputParser => 0
    case PatentSearcher => 1
    case OutlineGenerator => 2
    case AbstractWriter => 3
    case ClaimsWriter => 4
    case DescriptionWriterPart1 => 5
    case DescriptionWriterPart2 => 6
    case DiagramGenerator => 7
    case MarkdownMerger => 8
  }

  /** The stage a delegation name stands for, if any. */
  function StageNamed(name: string): Option<Stage> {
    if name == "input_parser" then Some(InputParser)
    else if name == "patent_searcher" then Some(PatentSearcher)
    else if name == "outline_generator" then Some(OutlineGenerator)
    else if name == "abstract_writer" then Some(AbstractWriter)
    else if name == "claims_writer" then Some(ClaimsWriter)
    else if name == "description_writer_part1" then Some(DescriptionWriterPart1)
    else if name == "description_writer_part2" then Some(DescriptionWriterPart2)
    else if name == "diagram_generator" then Some(DiagramGenerator)
    else if name == "markdown_merger" then Some(MarkdownMerger)
    else None
  }

  /** The five sub-directories of a project directory. */
  datatype WorkDir = InputDir | ResearchDir | OutlineDir | ContentDir | FinalDir

  /** The sub-directories in the order the layout lists them. */
  const Dirs: seq<WorkDir> := [InputDir, ResearchDir, OutlineDir, ContentDir, FinalDir]

  function DirIndex(d: WorkDir): (i: nat)
    ensures i < |Dirs| && Dirs[i] == d
  {
    match d
    case InputDir => 0
    case ResearchDir => 1
    case OutlineDir => 2
    case ContentDir => 3
    case FinalDir => 4
  }

  function DirName(d: WorkDir): string {
    match d
    case InputDir => "01_input"
    case ResearchDir => "02_research"
    case OutlineDir => "03_outline"
    case ContentDir => "04_content"
    case FinalDir => "05_final"
  }

  /** The files of a project. */
  datatype Artifact =
    | RawDocument
    | ParsedInfo
    | PriorArtAnalysis
    | AbstractStyle
    | ClaimsStyle
    | DescriptionStyle
    | PatentOutline
    | Abstract
    | Claims
    | Description
    | Figures
    | CompletePatent
    | SummaryReport

  /** A file name: the stem and the extension. */
  datatype FileName = FileName(stem: string, ext: string)

  function NameOf(a: Artifact): FileName {
    match a
    case RawDocument => FileName("raw_document", "docx")
    case ParsedInfo => FileName("parsed_info", "json")
    case PriorArtAnalysis => FileName("prior_art_analysis", "md")
    case AbstractStyle => FileName("abstract_writing_style", "md")
    case ClaimsStyle => FileName("claims_writing_style", "md")
    case DescriptionStyle => FileName("description_writing_style", "md")
    case PatentOutline => FileName("patent_outline", "md")
    case Abstract => FileName("abstract", "md")
    case Claims => FileName("claims", "md")
    case Description => FileName("description", "md")
    case Figures => FileName("figures", "md")
    case CompletePatent => FileName("complete_patent", "md")
    case SummaryReport => FileName("summary_report", "md")
  }

  function FileText(n: FileName): string {
    n.stem + "." + n.ext
  }

  /** The file a name stands for, if any. */
  function ArtifactNamed(n: FileName): Option<Artifact> {
    if n == FileName("raw_document", "docx") then Some(RawDocument)
    else if n == FileName("parsed_info", "json") then Some(ParsedInfo)
    else if n == FileName("prior_art_analysis", "md") then Some(PriorArtAnalysis)
    else if n == FileName("abstract_writing_style", "md") then Some(AbstractStyle)
    else if n == FileName("claims_writing_style", "md") then Some(ClaimsStyle)
    else if n == FileName("description_writing_style", "md") then Some(DescriptionStyle)
    else if n == FileName("patent_outline", "md") then Some(PatentOutline)
    else if n == FileName("abstract", "md") then Some(Abstract)
    else if n == FileName("claims", "md") then Some(Claims)
    else if n == FileName("description", "md") then Some(Description)
    else if n == FileName("figures", "md") then Some(Figures)
    else if n == FileName("complete_patent", "md") then Some(CompletePatent)
    else if n == FileName("summary_report", "md") then Some(SummaryReport)
    else None
  }

  /** The files each sub-directory holds, in the order the layout lists them. */
  function Layout(d: WorkDir): seq<Artifact> {
    match d
    case InputDir => [RawDocument, ParsedInfo]
    case ResearchDir => [PriorArtAnalysis, AbstractStyle, ClaimsStyle, DescriptionStyle]
    case OutlineDir => [PatentOutline]
    case ContentDir => [Abstract, Claims, Description, Figures]
    case FinalDir => [CompletePatent, SummaryReport]
  }

  /** What a stage reads: one file, or every file of a directory. */
  datatype Input = Reads(file: Artifact) | ReadsAllIn(dir: WorkDir)

  /** One row of the stage table. */
  datatype Row = Row(stage: Stage, dir: WorkDir, inputs: seq<Input>, outputs: seq<Artifact>)

  /** The stage table, row by row. `description_writer_part1` writes the
      first part of `description.md`; `description_writer_part2` reads it
      and writes the whole file. */
  function RowOf(s: Stage): (r: Row)
    ensures r.stage == s
  {
    match s
    case InputParser => Row(InputParser, InputDir, [Reads(RawDocument)], [ParsedInfo])
    case PatentSearcher =>
      Row(PatentSearcher, ResearchDir, [Reads(ParsedInfo)],
          [PriorArtAnalysis, AbstractStyle, ClaimsStyle, DescriptionStyle])
    case OutlineGenerator => Row(OutlineGenerator, OutlineDir, [Reads(ParsedInfo)], [PatentOutline])
    case AbstractWriter =>
      Row(AbstractWriter, ContentDir, [Reads(ParsedInfo), Reads(PatentOutline), Reads(AbstractStyle)], [Abstract])
    case ClaimsWriter =>
      Row(ClaimsWriter, ContentDir,
          [Reads(ParsedInfo), Reads(PatentOutline), Reads(Abstract), Reads(ClaimsStyle)], [Claims])
    case DescriptionWriterPart1 =>
      Row(DescriptionWriterPart1, ContentDir,
          [Reads(ParsedInfo), Reads(PatentOutline), Reads(Abstract), Reads(Claims), Reads(PriorArtAnalysis),
           Reads(DescriptionStyle)], [Description])
    case DescriptionWriterPart2 =>
      Row(DescriptionWriterPart2, ContentDir,
          [Reads(ParsedInfo), Reads(PatentOutline), Reads(Abstract), Reads(Claims), Reads(DescriptionStyle),
           Reads(Description)], [Description])
    case DiagramGenerator => Row(DiagramGenerator, ContentDir, [Reads(Description)], [Figures])
    case MarkdownMerger => Row(MarkdownMerger, FinalDir, [ReadsAllIn(ContentDir)], [SummaryReport, CompletePatent])
  }

  /** The stages whose outputs include `a`. */
  function Producers(a: Artifact): set<Stage> {
    set s: Stage | a in RowOf(s).outputs
  }

  /** The first stage that writes each file other than the raw document. */
  function FirstProducer(a: Artifact): Stage
    requires a != RawDocument
  {
    match a
    case ParsedInfo => InputParser
    case PriorArtAnalysis => PatentSearcher
    case AbstractStyle => PatentSearcher
    case ClaimsStyle => PatentSearcher
    case DescriptionStyle => PatentSearcher
    case PatentOutline => OutlineGenerator
    case Abstract => AbstractWriter
    case Claims => ClaimsWriter
    case Description => DescriptionWriterPart1
    case Figures => DiagramGenerator
    case CompletePatent => MarkdownMerger
    case SummaryReport => MarkdownMerger
  }

  /** The sub-directory a file belongs in. */
  function Home(a: Artifact): WorkDir {
    match a
    case RawDocument => InputDir
    case ParsedInfo => InputDir
    case PriorArtAnalysis => ResearchDir
    case AbstractStyle => ResearchDir
    case ClaimsStyle => ResearchDir
    case DescriptionStyle => ResearchDir
    case PatentOutline => OutlineDir
    case Abstract => ContentDir
    case Claims => ContentDir
    case Description => ContentDir
    case Figures => ContentDir
    case CompletePatent => FinalDir
    case SummaryReport => FinalDir
  }

  predicate SnakeChar(c: char) {
    'a' <= c <= 'z' || c == '_'
  }

  predicate LowerAlnum(c: char) {
    'a' <= c <= 'z' || '0' <= c <= '9'
  }

  /** The order holds every stage exactly once: nine different stages. */
  lemma StageOrderIsComplete()
    ensures |Order| == 9
    ensures forall i, j :: 0 <= i < j < |Order| ==> Order[i] != Order[j]
    ensures forall s: Stage :: s in Order
  {
    forall s: Stage ensures s in Order {
      assert Order[Position(s)] == s;
    }
  }

  /** `Position` reads the order backwards. */
  lemma PositionInverts(i: nat)
    requires i < |Order|
    ensures Position(Order[i]) == i
  {
    StageOrderIsComplete();
  }

  /** Each delegation name leads back to its stage, so no two stages share a
      name. */
  lemma AgentNamesIdentify(s: Stage)
    ensures StageNamed(AgentName(s)) == Some(s)
  {
    match s
    case InputParser =>
    case PatentSearcher =>
    case OutlineGenerator =>
    case AbstractWriter =>
    case ClaimsWriter =>
    case DescriptionWriterPart1 =>
    case DescriptionWriterPart2 =>
    case DiagramGenerator =>
    case MarkdownMerger =>
  }

  /** Every file a stage reads was written by a strictly earlier stage, except
      the raw document, which the leader copies in before the first stage. */
  lemma InputsComeEarlier(s: Stage, x: Input)
    requires x in RowOf(s).inputs && x.Reads? && x.file != RawDocument
    ensures Position(FirstProducer(x.file)) < Position(s)
    ensures x.file in RowOf(FirstProducer(x.file)).outputs
  {
    match s
    case InputParser =>
    case PatentSearcher =>
    case OutlineGenerator =>
    case AbstractWriter =>
    case ClaimsWriter =>
    case DescriptionWriterPart1 =>
    case DescriptionWriterPart2 =>
    case DiagramGenerator =>
    case MarkdownMerger =>
  }

  /** Only the first stage reads the raw document, and no stage writes it. */
  lemma RawDocumentComesFromOutside(s: Stage)
    ensures Reads(RawDocument) in RowOf(s).inputs <==> s == InputParser
    ensures RawDocument !in RowOf(s).outputs
  {
    match s
    case InputParser =>
    case PatentSearcher =>
    case OutlineGenerator =>
    case AbstractWriter =>
    case ClaimsWriter =>
    case DescriptionWriterPart1 =>
    case DescriptionWriterPart2 =>
    case DiagramGenerator =>
    case MarkdownMerger =>
  }

  /** The only stage that reads a whole directory is the merger, which reads
      `04_content/`; every stage working there runs before it, and every file
      kept there is written by such a stage. */
  lemma MergerReadsFinishedContent(s: Stage, x: Input)
    ensures x in RowOf(s).inputs && x.ReadsAllIn? ==> s == MarkdownMerger && x.dir == ContentDir
    ensures RowOf(s).dir == ContentDir ==> Position(s) < Position(MarkdownMerger)
    ensures forall a :: a in Layout(ContentDir) ==>
              RowOf(FirstProducer(a)).dir == ContentDir && a in RowOf(FirstProducer(a)).outputs
  {
    match s
    case InputParser =>
    case PatentSearcher =>
    case OutlineGenerator =>
    case AbstractWriter =>
    case ClaimsWriter =>
    case DescriptionWriterPart1 =>
    case DescriptionWriterPart2 =>
    case DiagramGenerator =>
    case MarkdownMerger =>
  }

  /** The writers of each file: the two description writers for
      `description.md`, the stage `FirstProducer` names for every other file
      but the raw document, and nobody for the raw document. */
  lemma WritersOf(a: Artifact, s: Stage)
    ensures a in RowOf(s).outputs <==>
      if a == RawDocument then false
      else if a == Description then s == DescriptionWriterPart1 || s == DescriptionWriterPart2
      else s == FirstProducer(a)
  {
    match a
    case RawDocument =>
    case ParsedInfo =>
    case PriorArtAnalysis =>
    case AbstractStyle =>
    case ClaimsStyle =>
    case DescriptionStyle =>
    case PatentOutline =>
    case Abstract =>
    case Claims =>
    case Description =>
    case Figures =>
    case CompletePatent =>
    case SummaryReport =>
  }

  /** `description.md` has two writers; every other file at most one. */
  lemma DescriptionHasTwoWriters(a: Artifact)
    ensures Producers(Description) == {DescriptionWriterPart1, DescriptionWriterPart2}
    ensures a != Description ==> |Producers(a)| <= 1
  {
    forall s: Stage ensures s in Producers(Description) <==> s == DescriptionWriterPart1 || s == DescriptionWriterPart2 {
      WritersOf(Description, s);
    }
    if a == RawDocument {
      forall s: Stage ensures s !in Producers(a) { WritersOf(a, s); }
      assert Producers(a) == {};
    } else if a != Description {
      forall s: Stage ensures s in Producers(a) <==> s == FirstProducer(a) { WritersOf(a, s); }
      assert Producers(a) == {FirstProducer(a)};
    }
  }

  /** Every output of a stage is listed in the layout under that stage's
      working directory. */
  lemma OutputsInLayout(s: Stage, a: Artifact)
    ensures a in RowOf(s).outputs ==> a in Layout(RowOf(s).dir)
  {
    match s
    case InputParser =>
    case PatentSearcher =>
    case OutlineGenerator =>
    case AbstractWriter =>
    case ClaimsWriter =>
    case DescriptionWriterPart1 =>
    case DescriptionWriterPart2 =>
    case DiagramGenerator =>
    case MarkdownMerger =>
  }

  /** Each file is listed in its home directory and in no other. */
  lemma LayoutListsHome(a: Artifact, d: WorkDir)
    ensures a in Layout(d) <==> Home(a) == d
  {
    match d
    case InputDir =>
    case ResearchDir =>
    case OutlineDir =>
    case ContentDir =>
    case FinalDir =>
  }

  /** The project directory has exactly the five sub-directories, numbered
      `01_` to `05_` in the order they are listed. */
  lemma FiveDirectoriesInOrder(d: WorkDir)
    ensures |Dirs| == 5 && d in Dirs
    ensures DirName(d)[..3] == ['0', ('1' as int + DirIndex(d)) as char, '_']
  {
    match d
    case InputDir =>
    case ResearchDir =>
    case OutlineDir =>
    case ContentDir =>
    case FinalDir =>
  }

  /** A name follows the convention: lower-case letters and underscores in
      the stem, lower-case letters or digits in the extension. */
  predicate Conventional(n: FileName) {
    && (forall i :: 0 <= i < |n.stem| ==> SnakeChar(n.stem[i]))
    && (forall i :: 0 <= i < |n.ext| ==> LowerAlnum(n.ext[i]))
  }

  /** Every file name follows the convention, and each name leads back to its
      file, so no two files share a name. */
  lemma FileNamesFollowConvention(a: Artifact)
    ensures Conventional(NameOf(a))
    ensures ArtifactNamed(NameOf(a)) == Some(a)
  {
    match a
    case RawDocument => RawDocumentNameFollows();
    case ParsedInfo => ParsedInfoNameFollows();
    case PriorArtAnalysis => PriorArtAnalysisNameFollows();
    case AbstractStyle => AbstractStyleNameFollows();
    case ClaimsStyle => ClaimsStyleNameFollows();
    case DescriptionStyle => DescriptionStyleNameFollows();
    case PatentOutline => PatentOutlineNameFollows();
    case Abstract => AbstractNameFollows();
    case Claims => ClaimsNameFollows();
    case Description => DescriptionNameFollows();
    case Figures => FiguresNameFollows();
    case CompletePatent => CompletePatentNameFollows();
    case SummaryReport => SummaryReportNameFollows();
  }

  // One lemma per file name: each checks the characters of one name on its
  // own, which keeps every proof obligation small; unfolding all thirteen
  // names in one body makes a single obligation that is far costlier.

  lemma RawDocumentNameFollows()
    ensures Conventional(NameOf(RawDocument))
    ensures ArtifactNamed(NameOf(RawDocument)) == Some(RawDocument)
  {
  }

  lemma ParsedInfoNameFollows()
    ensures Conventional(NameOf(ParsedInfo))
    ensures ArtifactNamed(NameOf(ParsedInfo)) == Some(ParsedInfo)
  {
  }

  lemma PriorArtAnalysisNameFollows()
    ensures Conventional(NameOf(PriorArtAnalysis))
    ensures ArtifactNamed(NameOf(PriorArtAnalysis)) == Some(PriorArtAnalysis)
  {
  }

  lemma AbstractStyleNameFollows()
    ensures Conventional(NameOf(AbstractStyle))
    ensures ArtifactNamed(NameOf(AbstractStyle)) == Some(AbstractStyle)
  {
  }

  lemma ClaimsStyleNameFollows()
    ensures Conventional(NameOf(ClaimsStyle))
    ensures ArtifactNamed(NameOf(ClaimsStyle)) == Some(ClaimsStyle)
  {
  }

  lemma DescriptionStyleNameFollows()
    ensures Conventional(NameOf(DescriptionStyle))
    ensures ArtifactNamed(NameOf(DescriptionStyle)) == Some(DescriptionStyle)
  {
  }

  lemma PatentOutlineNameFollows()
    ensures Conventional(NameOf(PatentOutline))
    ensures ArtifactNamed(NameOf(PatentOutline)) == Some(PatentOutline)
  {
  }

  lemma AbstractNameFollows()
    ensures Conventional(NameOf(Abstract))
    ensures ArtifactNamed(NameOf(Abstract)) == Some(Abstract)
  {
  }

  lemma ClaimsNameFollows()
    ensures Conventional(NameOf(Claims))
    ensures ArtifactNamed(NameOf(Claims)) == Some(Claims)
  {
  }

  lemma DescriptionNameFollows()
    ensures Conventional(NameOf(Description))
    ensures ArtifactNamed(NameOf(Description)) == Some(Description)
  {
  }

  lemma FiguresNameFollows()
    ensures Conventional(NameOf(Figures))
    ensures ArtifactNamed(NameOf(Figures)) == Some(Figures)
  {
  }

  lemma CompletePatentNameFollows()
    ensures Conventional(NameOf(CompletePatent))
    ensures ArtifactNamed(NameOf(CompletePatent)) == Some(CompletePatent)
  {
  }

  lemma SummaryReportNameFollows()
    ensures Conventional(NameOf(SummaryReport))
    ensures ArtifactNamed(NameOf(SummaryReport)) == Some(SummaryReport)
  {
  }
}
