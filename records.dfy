/** Record shapes shared by the dashboard: news items, milestones and month plans. */
module Records {

  datatype Option<T> = None | Some(value: T)

  /** A row of the `news_items` table. Enumerated columns are kept as the
      strings the form writes into them. */
  datatype NewsItem = NewsItem(
    id: string,
    summary: string,
    date: string,
    category: string,
    contentType: string,
    status: string,
    isHighlight: bool,
    originalText: string,
    timestamp: string)

  /** A news item before the client mints its id (`Omit<NewsItem, 'id'>`). */
  datatype NewItem = NewItem(
    summary: string,
    date: string,
    category: string,
    contentType: string,
    status: string,
    isHighlight: bool,
    originalText: string,
    timestamp: string)

  /** The status value counted as published. */
  const Published: string := "Published"

  /** Drops the id of a stored item. */
  function WithoutId(item: NewsItem): NewItem {
    NewItem(item.summary, item.date, item.category, item.contentType, item.status,
            item.isHighlight, item.originalText, item.timestamp)
  }

  /** The row `{ ...newItem, id }` sent to the store on insert. */
  function WithId(n: NewItem, id: string): (r: NewsItem)
    ensures r.id == id
    ensures WithoutId(r) == n
  {
    NewsItem(id, n.summary, n.date, n.category, n.contentType, n.status,
             n.isHighlight, n.originalText, n.timestamp)
  }

  /** A KPI tracker shown on the dashboard. */
  datatype Milestone = Milestone(
    id: string,
    name: string,
    description: string,
    currentValue: int,
    targetKPI: int)

  /** One month of the content calendar. */
  datatype MonthPlan = MonthPlan(month: string, theme: string, highlights: seq<string>)
}
