/**
 * Form: the in-memory view of one XForm definition record (the FormInfo submission)
 * and the helpers that read it. The datastore-backed Submission behind a Form is
 * abstracted as plain values: the description records, the fileset records and the
 * submission records it holds, plus the element tree of its form definition.
 */
module AggregateForm {
  import opened Wrappers
  import opened JavaStrings
  import opened FormTree

  /** IllegalStateException and its message. */
  datatype FormError = IllegalState(message: string)

  const OneFilesetRecordExpected: string := "Expecting only one fileset record at this time!"
  const ExactlyOneFilesetExpected: string := "Expecting exactly one fileset at this time"
  const FormDefinitionMissing: string := "unable to locate the form definition"

  // ---------------------------------------------------------------------------
  // Submission keys

  /**
   * extractWellFormedFormId: the form id is the part of the submission key before the
   * first '/', or the whole key when it holds no '/'. The contract determines the
   * result (see FormIdDetermined).
   */
  function ExtractWellFormedFormId(submissionKey: string): (formId: string)
    ensures formId <= submissionKey
    ensures '/' !in formId
    ensures |formId| < |submissionKey| ==> submissionKey[|formId|] == '/'
  {
    var firstSlash := IndexOf(submissionKey, '/');
    if firstSlash != -1 then submissionKey[..firstSlash] else submissionKey
  }

  /** Any slash-free prefix that ends at a '/' or at the end of the key is the extracted form id. */
  lemma FormIdDetermined(submissionKey: string, p: string)
    requires p <= submissionKey && '/' !in p
    requires |p| == |submissionKey| || submissionKey[|p|] == '/'
    ensures p == ExtractWellFormedFormId(submissionKey)
  {
    var r := ExtractWellFormedFormId(submissionKey);
    assert p == submissionKey[..|p|] && r == submissionKey[..|r|];
  }

  /** A form id is already well formed: extracting twice changes nothing. */
  lemma ExtractIdempotent(submissionKey: string)
    ensures ExtractWellFormedFormId(ExtractWellFormedFormId(submissionKey)) == ExtractWellFormedFormId(submissionKey)
  {
    var r := ExtractWellFormedFormId(submissionKey);
    FormIdDetermined(r, r);
  }

  /** The group path after the first '/' of a key is ignored. */
  lemma ExtractIgnoresGroupPath(formId: string, path: string)
    requires '/' !in formId
    ensures ExtractWellFormedFormId(formId + "/" + path) == formId
  {
    IndexOfAfterPrefix(formId, '/', path);
    assert (formId + "/" + path)[..|formId|] == formId;
  }

  /** What retrieveForm hands back. */
  datatype Retrieval =
    | NoForm                    // null: the key was null
    | FormInfoForm              // the FormInfo form itself
    | StoredForm(formId: string) // the form stored for this form id
    | FormNotFound              // ODKFormNotFoundException

  /**
   * retrieveForm. `formInfoLoaded` says whether loading the FormInfo definition succeeded;
   * `formInfoFormId` is the reserved form id of the FormInfo form; `storedFormId(id)` is the
   * form id recorded in the FormInfo entity stored under id's URI, or None when fetching
   * it fails. A null key is answered only after the FormInfo definition is loaded.
   */
  function RetrieveForm(formInfoLoaded: bool, submissionKey: Option<string>, formInfoFormId: string,
                        storedFormId: string -> Option<string>): (r: Retrieval)
    ensures !formInfoLoaded ==> r == FormNotFound
    ensures formInfoLoaded ==> (r == NoForm <==> submissionKey.None?)
    ensures r == FormInfoForm ==> submissionKey.Some? && ExtractWellFormedFormId(submissionKey.value) == formInfoFormId
    ensures r.StoredForm? ==> submissionKey.Some? && r.formId == ExtractWellFormedFormId(submissionKey.value)
                              && r.formId != formInfoFormId && storedFormId(r.formId) == Some(r.formId)
    ensures formInfoLoaded && submissionKey.Some? ==>
      var id := ExtractWellFormedFormId(submissionKey.value);
      && (id == formInfoFormId ==> r == FormInfoForm)
      && (id != formInfoFormId ==> (r == StoredForm(id) <==> storedFormId(id) == Some(id)))
      && (id != formInfoFormId && storedFormId(id) != Some(id) ==> r == FormNotFound)
  {
    if !formInfoLoaded then FormNotFound
    else if submissionKey.None? then NoForm
    else
      var formIdValue := ExtractWellFormedFormId(submissionKey.value);
      if formIdValue == formInfoFormId then FormInfoForm
      else match storedFormId(formIdValue)
        case None => FormNotFound
        case Some(id) => if id == formIdValue then StoredForm(formIdValue) else FormNotFound
  }

  /** Keys naming the same form, with or without a group path, retrieve the same form. */
  lemma RetrieveIgnoresGroupPath(formInfoLoaded: bool, formId: string, path: string, formInfoFormId: string,
                                 storedFormId: string -> Option<string>)
    requires '/' !in formId
    ensures RetrieveForm(formInfoLoaded, Some(formId + "/" + path), formInfoFormId, storedFormId)
         == RetrieveForm(formInfoLoaded, Some(formId), formInfoFormId, storedFormId)
  {
    ExtractIgnoresGroupPath(formId, path);
    FormIdDetermined(formId, formId);
  }

  // ---------------------------------------------------------------------------
  // Description records (fiDescriptionTable)

  /** The description-table columns getDescriptionTableFieldValue is asked for. */
  datatype DescriptionField = FormName | Description | DescriptionUrl

  /** One description record: its language code and its three string columns, each possibly null. */
  datatype DescriptionRecord = DescriptionRecord(
    languageCode: Option<string>, formName: Option<string>, description: Option<string>, descriptionUrl: Option<string>)

  function FieldValue(record: DescriptionRecord, field: DescriptionField): Option<string>
  {
    match field
    case FormName => record.formName
    case Description => record.description
    case DescriptionUrl => record.descriptionUrl
  }

  /** The record is in language `lang`; None stands for the records whose language code is null. */
  predicate InLanguage(record: DescriptionRecord, lang: Option<string>)
  {
    record.languageCode == lang
  }

  /**
   * The value a variable ends with when the scan assigns it the field of every record in
   * language `lang`: the field of the last such record (possibly null), or null if none.
   */
  function LastValueIn(records: seq<DescriptionRecord>, field: DescriptionField, lang: Option<string>): Option<string>
  {
    if records == [] then None
    else if InLanguage(records[|records| - 1], lang) then FieldValue(records[|records| - 1], field)
    else LastValueIn(records[..|records| - 1], field, lang)
  }

  /** The last record in the language decides the value. */
  lemma {:induction false} LastValueIsLastMatch(records: seq<DescriptionRecord>, field: DescriptionField,
                                                lang: Option<string>, i: nat)
    requires i < |records| && InLanguage(records[i], lang)
    requires forall j :: i < j < |records| ==> !InLanguage(records[j], lang)
    ensures LastValueIn(records, field, lang) == FieldValue(records[i], field)
    decreases |records|
  {
    if i < |records| - 1 {
      var front := records[..|records| - 1];
      assert forall j :: i < j < |front| ==> front[j] == records[j];
      LastValueIsLastMatch(front, field, lang, i);
    }
  }

  /** Without a record in the language the value stays null. */
  lemma {:induction false} LastValueNoMatch(records: seq<DescriptionRecord>, field: DescriptionField, lang: Option<string>)
    requires forall j :: 0 <= j < |records| ==> !InLanguage(records[j], lang)
    ensures LastValueIn(records, field, lang) == None
    decreases |records|
  {
    if records != [] {
      var front := records[..|records| - 1];
      assert forall j :: 0 <= j < |front| ==> front[j] == records[j];
      LastValueNoMatch(front, field, lang);
    }
  }

  /** What getDescriptionTableFieldValue returns: the preferred-language value unless it is null, then the default. */
  function PreferredOrDefault(records: seq<DescriptionRecord>, field: DescriptionField, languageCode: Option<string>): Option<string>
  {
    var preferred := if languageCode.None? then None else LastValueIn(records, field, languageCode);
    if preferred.None? then LastValueIn(records, field, None) else preferred
  }

  // ---------------------------------------------------------------------------
  // Fileset records (fiFilesetTable)

  /** One attachment of the xformDefinition blob, at its current version. */
  datatype Attachment = Attachment(currentVersion: Option<string>, contentType: string, unrootedFilename: string)

  /** One fileset record: the root element's model and UI versions and the form definition blob. */
  datatype Fileset = Fileset(modelVersion: Option<int>, uiVersion: Option<int>, xformDefinition: seq<Attachment>)

  /** The attachment getFormFilename accepts: a current version, XML content, a file name without a directory. */
  predicate IsFormDefinition(a: Attachment)
  {
    a.currentVersion.Some? && a.contentType == "text/xml" && '/' !in a.unrootedFilename
  }

  /** The "major.minor" version text: the model version, then '.' and the UI version when present. */
  function VersionString(modelVersion: Option<int>, uiVersion: Option<int>): string
  {
    ModelPart(modelVersion) + (if uiVersion.Some? then "." + LongToString(uiVersion.value) else "")
  }

  /** Reads a version string back: the text before the first '.' and the text after it. */
  function ParseVersionString(s: string): (Option<int>, Option<int>)
  {
    var dot := IndexOf(s, '.');
    if dot == -1 then (ParseOptionalLong(s), None)
    else (ParseOptionalLong(s[..dot]), ParseOptionalLong(s[dot + 1..]))
  }

  function ParseOptionalLong(s: string): Option<int>
  {
    if s == [] then None else ParseLong(s)
  }

  /** Long.toString never produces a '.', so it cannot be confused with the version separator. */
  lemma NoDotInLong(n: int)
    ensures '.' !in LongToString(n)
  {
  }

  /** The version string is unambiguous: both versions, null or not, can be read back from it. */
  lemma VersionStringRoundTrip(modelVersion: Option<int>, uiVersion: Option<int>)
    ensures ParseVersionString(VersionString(modelVersion, uiVersion)) == (modelVersion, uiVersion)
  {
    var m := ModelPart(modelVersion);
    if uiVersion.Some? {
      var u := LongToString(uiVersion.value);
      assert VersionString(modelVersion, uiVersion) == m + "." + u;
      RoundTripWithUi(m, modelVersion, uiVersion.value);
    } else {
      assert VersionString(modelVersion, uiVersion) == m + "";
      assert m + "" == m;
    }
  }

  /** The model-version part: empty for null, otherwise Long.toString; it never holds a '.'. */
  function ModelPart(modelVersion: Option<int>): (m: string)
    ensures ParseOptionalLong(m) == modelVersion && '.' !in m
  {
    if modelVersion.Some? then
      LongRoundTrip(modelVersion.value);
      NoDotInLong(modelVersion.value);
      LongToString(modelVersion.value)
    else ""
  }

  lemma RoundTripWithUi(m: string, modelVersion: Option<int>, uiVersion: int)
    requires ParseOptionalLong(m) == modelVersion && '.' !in m
    ensures ParseVersionString(m + "." + LongToString(uiVersion)) == (modelVersion, Some(uiVersion))
  {
    var u := LongToString(uiVersion);
    LongRoundTrip(uiVersion);
    IndexOfAfterPrefix(m, '.', u);
    var s := m + "." + u;
    assert s[..|m|] == m && s[|m| + 1..] == u;
  }

  /** The four shapes of the version string. */
  lemma VersionStringShapes(modelVersion: Option<int>, uiVersion: Option<int>)
    ensures VersionString(modelVersion, uiVersion) == "" <==> modelVersion.None? && uiVersion.None?
    ensures '.' in VersionString(modelVersion, uiVersion) <==> uiVersion.Some?
    ensures VersionString(modelVersion, uiVersion) != "" && VersionString(modelVersion, uiVersion)[0] == '.'
            <==> modelVersion.None? && uiVersion.Some?
  {
    var s := VersionString(modelVersion, uiVersion);
    if modelVersion.Some? {
      NoDotInLong(modelVersion.value);
    }
    if uiVersion.Some? {
      NoDotInLong(uiVersion.value);
      var m := if modelVersion.Some? then LongToString(modelVersion.value) else "";
      assert s[|m|] == '.';
    }
  }

  // ---------------------------------------------------------------------------
  // Submission records (fiSubmissionTable) and their associations

  /** XFormParameters: form id, model version and UI version, compared by value. */
  datatype XFormParameters = XFormParameters(formId: Option<string>, modelVersion: Option<int>, uiVersion: Option<int>)

  /** One submission record of the FormInfo entity. */
  datatype SubmissionRecord = SubmissionRecord(
    submissionFormId: Option<string>, submissionModelVersion: Option<int>, submissionUiVersion: Option<int>)

  /** A SubmissionAssociationTable row: the parameters it associates and whether submissions are allowed. */
  datatype SubmissionAssociation = SubmissionAssociation(parameters: XFormParameters, isSubmissionAllowed: bool)

  function ParametersOf(record: SubmissionRecord): XFormParameters
  {
    XFormParameters(record.submissionFormId, record.submissionModelVersion, record.submissionUiVersion)
  }

  /** The index of the first association with parameters p, or -1. */
  function FirstMatch(associations: seq<SubmissionAssociation>, p: XFormParameters): (k: int)
    ensures -1 <= k < |associations|
    ensures k >= 0 ==> associations[k].parameters == p
    ensures forall j :: 0 <= j < |associations| && (k == -1 || j < k) ==> associations[j].parameters != p
  {
    if associations == [] then -1
    else if associations[0].parameters == p then 0
    else
      var k := FirstMatch(associations[1..], p);
      assert forall j :: 1 <= j < |associations| ==> associations[j] == associations[1..][j - 1];
      if k == -1 then -1 else k + 1
  }

  /** The index of the last association with parameters p, or -1. */
  function LastMatch(associations: seq<SubmissionAssociation>, p: XFormParameters): (k: int)
    ensures -1 <= k < |associations|
    ensures k >= 0 ==> associations[k].parameters == p
    ensures forall j :: 0 <= j < |associations| && k < j ==> associations[j].parameters != p
  {
    if associations == [] then -1
    else if associations[|associations| - 1].parameters == p then |associations| - 1
    else
      var front := associations[..|associations| - 1];
      assert forall j :: 0 <= j < |front| ==> front[j] == associations[j];
      LastMatch(front, p)
  }

  // ---------------------------------------------------------------------------
  // The Form object

  class Form {
    /** The top-level group of the form definition (formDefinition.getTopLevelGroupElement()). */
    const topLevelGroup: Node
    /** The description records of the FormInfo entity. */
    const descriptions: seq<DescriptionRecord>
    /** The fileset records of the FormInfo entity. */
    const filesets: seq<Fileset>
    /** The cache built by getRepeatElementModels; None while the Java field is still null. */
    var repeatElementMap: Option<map<string, Node>>
    /** The association records fetched so far; findSubmission appends to it. */
    var submissionAssociations: seq<SubmissionAssociation>

    /** The repeat map, once built, is the one the element tree determines (the form is never altered). */
    ghost predicate Valid()
      reads this
    {
      repeatElementMap.Some? ==> repeatElementMap.value == RepeatElementMap(topLevelGroup)
    }

    constructor (topLevelGroup: Node, descriptions: seq<DescriptionRecord>, filesets: seq<Fileset>,
                 submissionAssociations: seq<SubmissionAssociation>)
      ensures Valid()
      ensures this.topLevelGroup == topLevelGroup && this.descriptions == descriptions
      ensures this.filesets == filesets && this.submissionAssociations == submissionAssociations
      ensures repeatElementMap.None?
    {
      this.topLevelGroup := topLevelGroup;
      this.descriptions := descriptions;
      this.filesets := filesets;
      this.submissionAssociations := submissionAssociations;
      this.repeatElementMap := None;
    }

    /**
     * getDescriptionTableFieldValue: one pass over the description records, remembering the
     * field of the last record in the requested language and of the last record whose
     * language code is null; the former wins unless it is null.
     */
    method GetDescriptionTableFieldValue(languageCode: Option<string>, field: DescriptionField) returns (r: Option<string>)
      ensures r == PreferredOrDefault(descriptions, field, languageCode)
    {
      var preferredViewableName: Option<string> := None;
      var defaultViewableName: Option<string> := None;
      var i := 0;
      while i < |descriptions|
        invariant 0 <= i <= |descriptions|
        invariant defaultViewableName == LastValueIn(descriptions[..i], field, None)
        invariant preferredViewableName == if languageCode.None? then None else LastValueIn(descriptions[..i], field, languageCode)
      {
        var descriptionRecord := descriptions[i];
        var value := FieldValue(descriptionRecord, field);
        var lc := descriptionRecord.languageCode;
        assert descriptions[..i + 1][..i] == descriptions[..i];
        if lc.None? {
          defaultViewableName := value;
        } else if languageCode.Some? && lc == languageCode {
          preferredViewableName := value;
        }
        i := i + 1;
      }
      assert descriptions[..i] == descriptions;
      r := if preferredViewableName.None? then defaultViewableName else preferredViewableName;
    }

    /** getViewableName(languageCode): the form name in that language, falling back to the default. */
    method GetViewableName(languageCode: Option<string>) returns (r: Option<string>)
      ensures r == PreferredOrDefault(descriptions, FormName, languageCode)
    {
      r := GetDescriptionTableFieldValue(languageCode, FormName);
    }

    /** getViewableName(): asks for language null, so only the records with a null language code count. */
    method GetDefaultViewableName() returns (r: Option<string>)
      ensures r == LastValueIn(descriptions, FormName, None)
    {
      r := GetViewableName(None);
    }

    /**
     * getMajorMinorVersionString: fails unless there is exactly one fileset; otherwise appends
     * the model version and then '.' and the UI version, each only when it is not null.
     */
    method GetMajorMinorVersionString() returns (r: Result<string, FormError>)
      ensures |filesets| != 1 ==> r == Failure(IllegalState(ExactlyOneFilesetExpected))
      ensures |filesets| == 1 ==> r == Success(VersionString(filesets[0].modelVersion, filesets[0].uiVersion))
    {
      if |filesets| != 1 {
        return Failure(IllegalState(ExactlyOneFilesetExpected));
      }
      var s := filesets[0];
      var b := "";
      if s.modelVersion.Some? {
        b := b + LongToString(s.modelVersion.value);
      }
      assert b == if s.modelVersion.Some? then LongToString(s.modelVersion.value) else "";
      if s.uiVersion.Some? {
        b := b + ".";
        b := b + LongToString(s.uiVersion.value);
      }
      assert b == VersionString(s.modelVersion, s.uiVersion);
      r := Success(b);
    }

    /**
     * getFormFilename: among the attachments with ordinals 1..count, the file name of the first
     * that is the XML form definition; fails when there is not exactly one fileset or none qualifies.
     */
    method GetFormFilename() returns (r: Result<string, FormError>)
      ensures |filesets| != 1 ==> r == Failure(IllegalState(OneFilesetRecordExpected))
      ensures |filesets| == 1 ==> r.Failure? ==>
        r.error == IllegalState(FormDefinitionMissing) &&
        forall k :: 0 <= k < |filesets[0].xformDefinition| ==> !IsFormDefinition(filesets[0].xformDefinition[k])
      ensures |filesets| == 1 ==> r.Success? ==>
        exists k :: 0 <= k < |filesets[0].xformDefinition| &&
          IsFormDefinition(filesets[0].xformDefinition[k]) &&
          r.value == filesets[0].xformDefinition[k].unrootedFilename &&
          forall j :: 0 <= j < k ==> !IsFormDefinition(filesets[0].xformDefinition[j])
    {
      if |filesets| != 1 {
        return Failure(IllegalState(OneFilesetRecordExpected));
      }
      var bt := filesets[0].xformDefinition;
      var count := |bt|;
      // ordinals run 1..count; attachment i is bt[i - 1]
      for i := 1 to count + 1
        invariant forall j :: 0 <= j < i - 1 ==> !IsFormDefinition(bt[j])
      {
        var version := bt[i - 1].currentVersion;
        if version.None? {
          continue;
        }
        var contentType := bt[i - 1].contentType;
        var unrootedFileName := bt[i - 1].unrootedFilename;
        if contentType == "text/xml" && '/' !in unrootedFileName {
          return Success(unrootedFileName);
        }
      }
      return Failure(IllegalState(FormDefinitionMissing));
    }

    /** findElementByName: the depth-first search from the top-level group. */
    function FindElementByName(name: string): (r: Option<Node>)
      ensures r.Some? ==> r.value.name == name && r.value in PreOrder(topLevelGroup)
      ensures r == FirstNamed(PreOrder(topLevelGroup), name)
    {
      FindElementIsFirstInPreOrder(topLevelGroup, name);
      FindElementByNameHelper(topLevelGroup, name)
    }

    /** getRepeatGroupsInModel: the REPEAT descendants of the top-level group, in pre-order. */
    method GetRepeatGroupsInModel() returns (list: seq<Node>)
      ensures list == RepeatsIn(Descendants(topLevelGroup))
      ensures topLevelGroup !in list
      ensures forall x :: x in list <==> x in Descendants(topLevelGroup) && x.kind == Repeat
    {
      list := GetRepeatGroupsInModelHelper(topLevelGroup, []);
      RepeatGroupsExcludeRoot(topLevelGroup);
      RepeatsInMembers(Descendants(topLevelGroup));
    }

    /**
     * populateRepeatElementMap: visits node and then each child's subtree, putting every
     * REPEAT element into the map under its element name; later puts overwrite earlier ones.
     */
    method PopulateRepeatElementMap(node: Node)
      requires repeatElementMap.Some?
      modifies this`repeatElementMap
      ensures repeatElementMap == Some(PutRepeats(old(repeatElementMap.value), PreOrder(node)))
      decreases node
    {
      if node.kind == Repeat {
        repeatElementMap := Some(repeatElementMap.value[node.name := node]);
      }
      ghost var start := old(repeatElementMap.value);
      var children := node.children;
      var i := 0;
      while i < |children|
        invariant 0 <= i <= |children|
        invariant repeatElementMap == Some(PutRepeats(start, [node] + PreOrderForest(children[..i])))
      {
        PutRepeatsAppend(start, [node], PreOrderForest(children[..i]));
        PopulateRepeatElementMap(children[i]);
        PreOrderForestSnoc(children, i);
        PutRepeatsAppend(PutIfRepeat(start, node), PreOrderForest(children[..i]), PreOrder(children[i]));
        PutRepeatsAppend(start, [node], PreOrderForest(children[..i + 1]));
        i := i + 1;
      }
      assert children[..i] == children;
    }

    /**
     * getRepeatElementModels: builds the repeat map on the first call and returns the cached
     * map on every later one.
     */
    method GetRepeatElementModels() returns (m: map<string, Node>)
      requires Valid()
      modifies this`repeatElementMap
      ensures Valid()
      ensures repeatElementMap == Some(m)
      ensures m == RepeatElementMap(topLevelGroup)
      ensures old(repeatElementMap).Some? ==> m == old(repeatElementMap.value)
    {
      if repeatElementMap.None? {
        repeatElementMap := Some(map[]);
        PopulateRepeatElementMap(topLevelGroup);
      }
      m := repeatElementMap.value;
    }

    /**
     * findSubmission: the first cached association whose parameters equal the record's.
     * Otherwise the associations the datastore query returns (`fetched`, None when the
     * query fails) are all appended to the cache, and the last of them that matches is
     * returned.
     */
    method FindSubmission(record: SubmissionRecord, fetched: Option<seq<SubmissionAssociation>>)
      returns (r: Option<SubmissionAssociation>)
      modifies this`submissionAssociations
      ensures var p := ParametersOf(record);
        var k := FirstMatch(old(submissionAssociations), p);
        if k >= 0 then
          r == Some(old(submissionAssociations)[k]) && submissionAssociations == old(submissionAssociations)
        else if fetched.None? then
          r == None && submissionAssociations == old(submissionAssociations)
        else
          submissionAssociations == old(submissionAssociations) + fetched.value &&
          r == (var l := LastMatch(fetched.value, p); if l >= 0 then Some(fetched.value[l]) else None)
    {
      var p := ParametersOf(record);
      var i := 0;
      while i < |submissionAssociations|
        invariant 0 <= i <= |submissionAssociations|
        invariant forall j :: 0 <= j < i ==> submissionAssociations[j].parameters != p
      {
        if submissionAssociations[i].parameters == p {
          return Some(submissionAssociations[i]);
        }
        i := i + 1;
      }
      if fetched.None? {
        return None;
      }
      var l := fetched.value;
      var found: Option<SubmissionAssociation> := None;
      ghost var cached := submissionAssociations;
      var n := 0;
      while n < |l|
        invariant 0 <= n <= |l|
        invariant submissionAssociations == cached + l[..n]
        invariant found == (var m := LastMatch(l[..n], p); if m >= 0 then Some(l[..n][m]) else None)
      {
        var a := l[n];
        submissionAssociations := submissionAssociations + [a];
        assert l[..n + 1] == l[..n] + [a];
        if a.parameters == p {
          found := Some(a);
        }
        n := n + 1;
      }
      assert l[..n] == l;
      r := found;
    }
  }
}
