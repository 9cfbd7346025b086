/**
 The label dispatch tables of the batch scripts: which command a GitHub issue
 label runs (`get_base_command`), which kind of ID that command takes
 (`get_id_type`), how that ID is read from an issue's fields (`get_id`), and
 which issue class handles a label (`get_class_for_label`).
 */
module Labels {
  import opened Text
  import StudyIds

  const ImportMrSessions := "import_mr_sessions"
  const CheckNewSessions := "check_new_sessions"
  const UpdateVisitData := "update_visit_data"
  const CheckPhantomScans := "check_phantom_scans"
  const RedcapUpdateSummaryScores := "redcap_update_summary_scores"
  const UpdateSummaryForms := "update_summary_forms"

  /** The labels that name a command to run. */
  const CommandLabels: set<string> := {ImportMrSessions, CheckNewSessions, UpdateVisitData, CheckPhantomScans}

  /** The commands that take a subject's study ID rather than an experiment ID. */
  const StudyIdLabels: set<string> := {ImportMrSessions, UpdateVisitData}

  const SubjectId := "subject_id"
  const Eid := "eid"
  const ExperimentId := "experiment_id"

  const StudyIdFlag := "--study-id"
  const ExperimentFlag := "-e"

  /** Where the data-integration scripts are installed. */
  const ScriptsRoot := "/sibis-software/ncanda-data-integration/scripts/"

  /** The installed script `name` in the scripts sub-directory `dir`. */
  function ScriptPath(dir: string, name: string): (path: string)
    ensures IsSuffix("/" + name, path)
  {
    var path := ScriptsRoot + dir + "/" + name;
    assert path == (ScriptsRoot + dir) + ("/" + name);
    path
  }

  /** The six label names differ from one another already in their first characters or lengths. */
  lemma LabelsDistinct()
    ensures ImportMrSessions != CheckNewSessions && ImportMrSessions != UpdateVisitData
    ensures ImportMrSessions != CheckPhantomScans && CheckNewSessions != UpdateVisitData
    ensures CheckNewSessions != CheckPhantomScans && UpdateVisitData != CheckPhantomScans
    ensures RedcapUpdateSummaryScores !in CommandLabels && UpdateSummaryForms !in CommandLabels
    ensures RedcapUpdateSummaryScores != UpdateSummaryForms
  {
    assert ImportMrSessions[0] != CheckNewSessions[0];
    assert CheckNewSessions[6] != CheckPhantomScans[6];
    assert UpdateSummaryForms[7] != UpdateVisitData[7];
  }

  /**
   `get_base_command(label)`: the command line for a label, up to the ID that
   is appended last; `None` (Python's implicit `None`) for any other label.
   */
  function BaseCommand(labelName: string): (r: Option<seq<string>>)
    ensures r.Some? <==> labelName in CommandLabels
    ensures r.Some? ==> |r.value| >= 2 && IsSuffix("/" + labelName, r.value[0])
    ensures r.Some? ==> r.value[|r.value| - 1] == if labelName in StudyIdLabels then StudyIdFlag else ExperimentFlag
  {
    LabelsDistinct();
    if labelName == ImportMrSessions then
      Some([
        ScriptPath("redcap", ImportMrSessions),
        "-f",
        "--pipeline-root-dir",
        "/fs/ncanda-share/cases",
        "--run-pipeline-script",
        "/fs/ncanda-share/scripts/bin/ncanda_all_pipelines",
        StudyIdFlag
      ])
    else if labelName == CheckNewSessions then
      Some([ScriptPath("xnat", CheckNewSessions), "-f", ExperimentFlag])
    else if labelName == UpdateVisitData then
      Some([ScriptPath("import/laptops", UpdateVisitData), "-a", StudyIdFlag])
    else if labelName == CheckPhantomScans then
      Some([ScriptPath("xnat", CheckPhantomScans), "-a", ExperimentFlag])
    else
      None
  }

  /**
   `get_id_type(label)`: the kind of ID the label's command takes. The source
   asserts that the label is one of the four command labels.
   */
  function IdType(labelName: string): (t: string)
    requires labelName in CommandLabels
    ensures t in {SubjectId, Eid, ExperimentId}
    ensures t == SubjectId <==> labelName in StudyIdLabels
    ensures t == Eid <==> labelName == CheckNewSessions
    ensures t == ExperimentId <==> labelName == CheckPhantomScans
  {
    LabelsDistinct();
    if labelName in [ImportMrSessions, UpdateVisitData] then SubjectId
    else if labelName in [CheckNewSessions] then Eid
    else if labelName in [CheckPhantomScans] then ExperimentId
    else assert false; ""
  }

  /** The issue field `get_id` reads for an ID type it knows. */
  function IdField(idType: string): Option<string> {
    if idType == SubjectId then Some("experiment_site_id")
    else if idType == Eid then Some(Eid)
    else if idType == ExperimentId then Some(ExperimentId)
    else None
  }

  /**
   `get_id(id_type, issue_dict)`: the ID stored in the issue's fields; a
   subject ID is the first 11 characters of the experiment's site ID.
   */
  function GetId(idType: string, issue: map<string, string>): (r: Option<string>)
    ensures r.Some? <==> IdField(idType).Some? && IdField(idType).value in issue
    ensures r.Some? && idType != SubjectId ==> r.value == issue[IdField(idType).value]
    ensures r.Some? && idType == SubjectId ==>
      var site := issue["experiment_site_id"];
      |r.value| == (if |site| < 11 then |site| else 11) && r.value <= site
  {
    if idType == SubjectId then
      if "experiment_site_id" in issue then
        var site := issue["experiment_site_id"];
        Some(if |site| <= 11 then site else site[..11])
      else None
    else if idType == Eid then
      if Eid in issue then Some(issue[Eid]) else None
    else if idType == ExperimentId then
      if ExperimentId in issue then Some(issue[ExperimentId]) else None
    else None
  }

  /**
   The last flag of a label's command is the one for the ID that `get_id_type`
   chooses: `--study-id` for subject IDs, `-e` for experiment IDs.
   */
  lemma CommandFlagMatchesIdType(labelName: string)
    requires labelName in CommandLabels
    ensures BaseCommand(labelName).Some?
    ensures var cmd := BaseCommand(labelName).value;
      cmd[|cmd| - 1] == StudyIdFlag <==> IdType(labelName) == SubjectId
  {
  }

  /** Every label `get_id_type` accepts yields an ID type that `get_id` knows. */
  lemma IdTypeKnownToGetId(labelName: string, issue: map<string, string>)
    requires labelName in CommandLabels
    ensures IdField(IdType(labelName)).Some?
    ensures GetId(IdType(labelName), issue).Some? <==> IdField(IdType(labelName)).value in issue
  {
  }

  /**
   A site ID that starts with a study ID yields exactly that study ID as the
   subject ID, and the extractor finds it again in that ID.
   */
  lemma SubjectIdIsStudyId(issue: map<string, string>, id: string, rest: string)
    requires "experiment_site_id" in issue && issue["experiment_site_id"] == id + rest
    requires StudyIds.IsStudyId(id)
    ensures GetId(SubjectId, issue) == Some(id)
    ensures StudyIds.ExtractUniqueStudyIds(id) == [id]
  {
    assert |id| == 11;
    if rest == [] {
      assert id + rest == id;
    } else {
      assert (id + rest)[..11] == id;
    }
    var ps := StudyIds.MatchStarts(StudyIds.IsStudyId, StudyIds.IdLength, id, 0);
    assert id[0..11] == id;
    assert StudyIds.MatchStarts(StudyIds.IsStudyId, StudyIds.IdLength, id, 11) == [];
    assert ps == [0];
    assert StudyIds.FindAll(id) == [id];
    assert StudyIds.SortedUnique([id]) == StudyIds.Insert([], id);
  }

  /** The issue classes of the `issues` module that a label can select. */
  datatype IssueClass =
    | RedcapUpdateSummaryScoresIssue
    | UpdateVisitDataIssue
    | UpdateSummaryFormsIssue
    | ImportMRSessionsIssue

  const ClassLabels: set<string> := {RedcapUpdateSummaryScores, UpdateVisitData, UpdateSummaryForms, ImportMrSessions}

  /**
   `get_class_for_label(label)`: the issue class for a label. The source
   asserts that the label is one of the four class labels.
   */
  function ClassForLabel(labelName: string): (c: IssueClass)
    requires labelName in ClassLabels
    ensures ClassLabel(c) == labelName
  {
    if labelName == RedcapUpdateSummaryScores then RedcapUpdateSummaryScoresIssue
    else if labelName == UpdateVisitData then UpdateVisitDataIssue
    else if labelName == UpdateSummaryForms then UpdateSummaryFormsIssue
    else if labelName == ImportMrSessions then ImportMRSessionsIssue
    else assert false; ImportMRSessionsIssue
  }

  /** The label an issue class is selected by. */
  function ClassLabel(c: IssueClass): (labelName: string)
    ensures labelName in ClassLabels
  {
    match c
    case RedcapUpdateSummaryScoresIssue => RedcapUpdateSummaryScores
    case UpdateVisitDataIssue => UpdateVisitData
    case UpdateSummaryFormsIssue => UpdateSummaryForms
    case ImportMRSessionsIssue => ImportMrSessions
  }

  /** Each class label selects its own class, and every class is selected by one label. */
  lemma ClassForLabelRoundTrip(labelName: string, c: IssueClass)
    requires labelName in ClassLabels
    ensures ClassLabel(ClassForLabel(labelName)) == labelName
    ensures ClassForLabel(ClassLabel(c)) == c
  {
  }
}
