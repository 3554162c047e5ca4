/** The three entities of the library: a Subject holds Lessons, a Lesson holds Videos. */
module Types {

  /** An identifier from `crypto.randomUUID()`: never the empty string. */
  type Id = s: string | |s| > 0 witness "id"

  datatype Video = Video(id: Id, url: string, title: string, thumbnailUrl: string, authorName: string, watched: bool)

  datatype Lesson = Lesson(id: Id, name: string, videos: seq<Video>)

  datatype Subject = Subject(id: Id, name: string, lessons: seq<Lesson>)

  function SubjectKey(s: Subject): Id { s.id }

  function LessonKey(l: Lesson): Id { l.id }

  function VideoKey(v: Video): Id { v.id }
}
