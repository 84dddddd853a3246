/**
 * The Skills page: sorting a copy of each category's skills by a key under
 * `localeCompare` (an abstract comparator here) and the skill icon lookup.
 */
module Skills {

  import opened Icons
  import opened Sorting

  /** Icons known for skill names. */
  const SkillIcons: map<string, string> := map[
    "Google ADK" := Icon("Google_ADK"),
    "RAG" := Icon("RAG"),
    "LangChain" := Icon("langchain"),
    "LlamaIndex" := Icon("llama-index"),
    "PyTorch" := Icon("torch"),
    "TensorFlow" := Icon("TensorFlow"),
    "Google Vertex AI" := Icon("vertexai"),
    "Prompt Engineering" := Icon("aistudio"),
    "LangSmith" := Icon("langsmith"),
    "LangGraph" := Icon("langgraph"),
    "OpenAI" := Icon("openai"),
    "Qwen" := Icon("qwen"),
    "GCP PCA" := Icon("gcloud"),
    "AWS CPE" := Icon("aws"),
    "Docker" := Icon("docker"),
    "Kubernetes (GKE)" := Icon("kubernetes"),
    "Rancher" := Icon("Rancher"),
    "FastAPI" := Icon("FastAPI"),
    "Spring Boot" := Icon("Spring_Boot"),
    "Node.js" := Icon("node.js"),
    "Express" := Icon("Express"),
    "PostgreSQL" := Icon("postgresql"),
    "MongoDB" := Icon("mongodb"),
    "Redis" := Icon("redis"),
    "React" := Icon("js"),
    "Next.js" := Icon("next.js"),
    "Redux" := Icon("Redux")
  ]

  /** The icon of a skill: its mapped path, or the default icon. */
  function SkillIcon(skill: string): (r: string)
    ensures skill in SkillIcons ==> r == SkillIcons[skill]
    ensures skill !in SkillIcons ==> r == DefaultIcon
  {
    IconOr(SkillIcons, skill)
  }

  /** A `localeCompare`-like comparator that is total and transitive in its `<= 0` reading. */
  ghost predicate ConsistentComparator(cmp: (string, string) -> int) {
    && (forall a, b :: cmp(a, b) <= 0 || cmp(b, a) <= 0)
    && (forall a, b, c :: cmp(a, b) <= 0 && cmp(b, c) <= 0 ==> cmp(a, c) <= 0)
  }

  /** `(a, b) => keyFn(a).localeCompare(keyFn(b))` read as "a may stay before b". */
  function ByKey<T>(key: T -> string, cmp: (string, string) -> int): (T, T) -> bool {
    (a: T, b: T) => cmp(key(a), key(b)) <= 0
  }

  lemma ByKeyIsPreorder<T(!new)>(key: T -> string, cmp: (string, string) -> int)
    requires ConsistentComparator(cmp)
    ensures TotalPreorder(ByKey(key, cmp))
  {
  }

  /** `sortAlphabetically`: a sorted copy; the caller's list is a value and stays as it was. */
  function SortAlphabetically<T>(items: seq<T>, key: T -> string, cmp: (string, string) -> int): (r: seq<T>)
    ensures |r| == |items|
    ensures multiset(r) == multiset(items)
  {
    Sort(items, ByKey(key, cmp))
  }

  /** With a consistent comparator, the keys of neighbouring results are in comparator order. */
  lemma SortAlphabeticallyOrdered<T(!new)>(items: seq<T>, key: T -> string, cmp: (string, string) -> int)
    requires ConsistentComparator(cmp)
    ensures var r := SortAlphabetically(items, key, cmp);
      forall i :: 0 <= i < |r| - 1 ==> cmp(key(r[i]), key(r[i + 1])) <= 0
  {
    ByKeyIsPreorder(key, cmp);
    SortSorted(items, ByKey(key, cmp));
  }
}
