/**
 * The records exchanged by the backend (`src/models.py`) and the shape of a
 * JSON field as the code reads it with `dict.get(key, default)`.
 */
module Models {

  /** One key of a JSON object: absent, present but `null`, or a string. */
  datatype Field = Missing | Null | Str(text: string)

  /** `d.get(key, default)` when the caller needs a string: an absent key gives
      the default, a string gives itself, and a `null` gives `None`. */
  function GetOr(f: Field, default: string): (r: Option<string>)
    ensures f.Missing? ==> r == Some(default)
    ensures f.Str? ==> r == Some(f.text)
    ensures f.Null? <==> r.None?
  {
    match f
    case Missing => Some(default)
    case Null => None
    case Str(t) => Some(t)
  }

  datatype Option<T> = None | Some(value: T)

  /** A learning resource. `id` is present only for items that come from the
      vector index; `kind` is the Python field `type`, optional, defaulting to
      `"resource"`. */
  datatype Resource = Resource(
    id: Option<string>,
    title: string,
    url: string,
    description: string,
    kind: Option<string>)

  const DefaultKind: string := "resource"

  /** A topic of a roadmap with its resources and the ids of its prerequisites. */
  datatype RoadmapNode = RoadmapNode(
    id: string,
    title: string,
    description: string,
    resources: seq<Resource>,
    prerequisites: seq<string>)

  /** The roadmap returned for a goal. */
  datatype RoadmapResponse = RoadmapResponse(goal: string, nodes: seq<RoadmapNode>)
}
