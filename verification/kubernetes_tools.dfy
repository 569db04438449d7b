/**
 * The two tools the agent may call on the cluster: `list_kubernetes_pods`
 * and `restart_all_pods`. Loading the kube config, listing the namespace
 * and deleting its pods are calls into the cluster; here the listing is an
 * input (the pods, or the failure the calls raised) and so is the outcome
 * of the collection delete. Each tool is a total function: every failure
 * becomes a message, none escapes.
 */
module KubernetesTools {
  import opened Wrappers
  import opened Text

  /** A listed pod: `metadata.name` and `status.phase`. */
  datatype Pod = Pod(name: string, phase: string)

  /** The three ways a cluster call can fail, as the tools tell them apart. */
  datatype Failure =
    | ConfigMissing
    | ApiError(reason: string)
    | Unexpected(message: string)

  /** What loading the config and listing the namespace gave. */
  datatype Listing = Listed(pods: seq<Pod>) | ListFailed(failure: Failure)

  /** A tool's reply, with the number of collection deletes it issued. */
  datatype ToolReply = ToolReply(text: string, deleteCalls: nat)

  const ConfigMissingText := "Kubernetes configuration not found. " + "Please ensure your ~/.kube/config file is set up correctly."
  const ApiErrorPrefix := "Kubernetes API Error: "
  const UnexpectedPrefix := "An unexpected error occurred: "
  const ConfirmHint := "\n\nPass confirm=True to actually restart these pods."
  const RestartedPrefix := "Successfully triggered restart of "

  /** The message each `except` clause returns. */
  function FailureText(f: Failure): string {
    match f
    case ConfigMissing => ConfigMissingText
    case ApiError(reason) => ApiErrorPrefix + reason
    case Unexpected(message) => UnexpectedPrefix + message
  }

  function Quoted(namespace: string): string {
    "'" + namespace + "'"
  }

  function NoPodsText(namespace: string): string {
    "No pods found in namespace " + Quoted(namespace) + "."
  }

  function ListHeader(namespace: string): string {
    "Pods in namespace " + Quoted(namespace) + ":"
  }

  function PreviewHeader(namespace: string): string {
    "The following " + "pods would " + "be restarted " + "in namespace " + Quoted(namespace) + ":"
  }

  function RestartedSuffix(namespace: string): string {
    " pods in namespace " + Quoted(namespace) + "."
  }

  /** `f"{pod.metadata.name} (Status: {pod.status.phase})"` */
  function PodLine(pod: Pod): string {
    pod.name + " (Status: " + pod.phase + ")"
  }

  /** The report line of each pod, in list order. */
  function PodLines(pods: seq<Pod>): (lines: seq<string>)
    ensures |lines| == |pods| && forall i :: 0 <= i < |pods| ==> lines[i] == PodLine(pods[i])
  {
    if pods == [] then [] else [PodLine(pods[0])] + PodLines(pods[1..])
  }

  /** The name of each pod, in list order. */
  function PodNames(pods: seq<Pod>): (names: seq<string>)
    ensures |names| == |pods| && forall i :: 0 <= i < |pods| ==> names[i] == pods[i].name
  {
    if pods == [] then [] else [pods[0].name] + PodNames(pods[1..])
  }

  /**
   * `list_kubernetes_pods(namespace)`. The report of a namespace with pods,
   * read line by line, is the header followed by one line per pod in list
   * order, as long as no name, phase or namespace holds a line break.
   */
  function ListKubernetesPods(listing: Listing, namespace: string := "default"): (text: string)
    ensures listing.Listed? && listing.pods != [] && LineFree(listing.pods, namespace) ==>
      SplitOn(text, "\n") == [ListHeader(namespace)] + PodLines(listing.pods)
  {
    match listing
    case ListFailed(f) => FailureText(f)
    case Listed(pods) =>
      if pods == [] then NoPodsText(namespace)
      else
        ReportLines(pods, namespace);
        Report(pods, namespace)
  }

  /** The pod report: the header, then one line per pod. */
  function Report(pods: seq<Pod>, namespace: string): string {
    ListHeader(namespace) + "\n" + Join(PodLines(pods), "\n")
  }

  /** The list of pods a restart would hit, one name per line under a header. */
  function Preview(pods: seq<Pod>, namespace: string): string {
    PreviewHeader(namespace) + "\n" + Join(PodNames(pods), "\n")
  }

  /**
   * `restart_all_pods(namespace, confirm)`. `deletion` is what the
   * collection delete would raise, if anything; it is only consulted when
   * the delete is issued.
   */
  function RestartAllPods(listing: Listing, deletion: Option<Failure>, namespace: string := "default", confirm: bool := false): (r: ToolReply)
    ensures r.deleteCalls <= 1
    ensures r.deleteCalls == 1 <==> confirm && listing.Listed? && listing.pods != []
  {
    match listing
    case ListFailed(f) => ToolReply(FailureText(f), 0)
    case Listed(pods) =>
      if pods == [] then ToolReply(NoPodsText(namespace), 0)
      else if !confirm then ToolReply(Preview(pods, namespace) + ConfirmHint, 0)
      else match deletion
        case Some(f) => ToolReply(FailureText(f), 1)
        case None => ToolReply(RestartedPrefix + NatToString(|pods|) + RestartedSuffix(namespace), 1)
  }

  /** Without `confirm`, a namespace with pods gets the preview and the hint, and nothing is deleted. */
  lemma PreviewReply(pods: seq<Pod>, deletion: Option<Failure>, namespace: string)
    requires pods != []
    ensures RestartAllPods(Listed(pods), deletion, namespace, false)
      == ToolReply(Preview(pods, namespace) + ConfirmHint, 0)
  {
  }

  /** A call that supplies neither argument previews the default namespace and deletes nothing. */
  lemma DefaultCallPreviews(pods: seq<Pod>, deletion: Option<Failure>)
    requires pods != []
    ensures RestartAllPods(Listed(pods), deletion)
      == ToolReply(Preview(pods, "default") + ConfirmHint, 0)
  {
  }

  /** On an empty namespace both tools give the same message, and nothing is deleted. */
  lemma EmptyNamespace(deletion: Option<Failure>, namespace: string, confirm: bool)
    ensures ListKubernetesPods(Listed([]), namespace) == NoPodsText(namespace)
    ensures RestartAllPods(Listed([]), deletion, namespace, confirm) == ToolReply(NoPodsText(namespace), 0)
  {
  }

  /** A failed listing gives the failure's message from both tools, whatever was asked. */
  lemma ListingFailure(f: Failure, deletion: Option<Failure>, namespace: string, confirm: bool)
    ensures ListKubernetesPods(ListFailed(f), namespace) == FailureText(f)
    ensures RestartAllPods(ListFailed(f), deletion, namespace, confirm) == ToolReply(FailureText(f), 0)
  {
  }

  /** The three failures give three different messages, each with its own text or payload. */
  lemma FailureTextsDistinct(f: Failure, g: Failure)
    ensures FailureText(f) == FailureText(g) <==> f == g
  {
    if FailureText(f) == FailureText(g) {
      var t := FailureText(f);
      assert Tag(f) == t[11] == Tag(g) by {
        FailureTag(f);
        FailureTag(g);
      }
      match f
      case ConfigMissing =>
      case ApiError(reason) =>
        assert reason == t[|ApiErrorPrefix|..];
      case Unexpected(message) =>
        assert message == t[|UnexpectedPrefix|..];
    }
  }

  /** The character at index 11 of each failure message tells the kinds apart. */
  function Tag(f: Failure): char {
    match f
    case ConfigMissing => 'c'
    case ApiError(_) => 'A'
    case Unexpected(_) => 'e'
  }

  lemma FailureTag(f: Failure)
    ensures |FailureText(f)| > 11 && FailureText(f)[11] == Tag(f)
  {
    match f
    case ConfigMissing =>
    case ApiError(reason) =>
      assert FailureText(f)[11] == ApiErrorPrefix[11];
    case Unexpected(message) =>
      assert FailureText(f)[11] == UnexpectedPrefix[11];
  }

  /** No line break in the namespace or in any pod's name or phase. */
  predicate LineFree(pods: seq<Pod>, namespace: string) {
    '\n' !in namespace && forall i :: 0 <= i < |pods| ==> '\n' !in pods[i].name && '\n' !in pods[i].phase
  }

  /** The report, split into lines, when no name, phase or namespace holds a line break. */
  lemma ReportLines(pods: seq<Pod>, namespace: string)
    requires pods != []
    ensures LineFree(pods, namespace) ==>
      SplitOn(Report(pods, namespace), "\n") == [ListHeader(namespace)] + PodLines(pods)
  {
    if LineFree(pods, namespace) {
      LinesUnbroken(pods, namespace);
      HeaderThenLines(ListHeader(namespace), PodLines(pods));
    }
  }

  /** A header joined to lines by line breaks splits back into the header and the lines. */
  lemma HeaderThenLines(header: string, lines: seq<string>)
    requires lines != [] && '\n' !in header
    requires forall i :: 0 <= i < |lines| ==> '\n' !in lines[i]
    ensures SplitOn(header + "\n" + Join(lines, "\n"), "\n") == [header] + lines
  {
    var all := [header] + lines;
    assert all[1..] == lines;
    assert Join(all, "\n") == header + "\n" + Join(lines, "\n");
    JoinSplitOn(all, "\n");
  }

  /** No report line holds a line break when no name, phase or namespace does. */
  lemma LinesUnbroken(pods: seq<Pod>, namespace: string)
    requires LineFree(pods, namespace)
    ensures '\n' !in ListHeader(namespace)
    ensures forall i :: 0 <= i < |PodLines(pods)| ==> '\n' !in PodLines(pods)[i]
  {
  }

  /**
   * The preview, split into lines, is its header followed by the name of
   * each pod in list order, under the same condition.
   */
  lemma PreviewLines(pods: seq<Pod>, namespace: string)
    requires pods != [] && LineFree(pods, namespace)
    ensures SplitOn(Preview(pods, namespace), "\n") == [PreviewHeader(namespace)] + PodNames(pods)
  {
    NamesUnbroken(pods, namespace);
    HeaderThenLines(PreviewHeader(namespace), PodNames(pods));
  }

  lemma NamesUnbroken(pods: seq<Pod>, namespace: string)
    requires LineFree(pods, namespace)
    ensures '\n' !in PreviewHeader(namespace)
    ensures forall i :: 0 <= i < |PodNames(pods)| ==> '\n' !in PodNames(pods)[i]
  {
  }

  /** The restart message carries the number of pods listed, as a numeral that reads back as that number. */
  lemma RestartCount(pods: seq<Pod>, namespace: string)
    requires pods != []
    ensures exists digits ::
      && RestartAllPods(Listed(pods), None, namespace, true).text == RestartedPrefix + digits + RestartedSuffix(namespace)
      && AllDigits(digits) && ParseNat(digits) == |pods|
  {
    var digits := NatToString(|pods|);
    ParseNatToString(|pods|);
    assert RestartAllPods(Listed(pods), None, namespace, true).text == RestartedPrefix + digits + RestartedSuffix(namespace);
  }

  /** A confirmed restart whose delete raises reports the failure, after issuing the one delete. */
  lemma RestartDeleteFails(pods: seq<Pod>, f: Failure, namespace: string)
    requires pods != []
    ensures RestartAllPods(Listed(pods), Some(f), namespace, true) == ToolReply(FailureText(f), 1)
  {
  }
}
